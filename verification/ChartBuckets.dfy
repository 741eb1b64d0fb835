/** Dense time buckets for the decision chart (`buildBuckets` in apps/console/src/components/chartData.ts).
    Times are whole milliseconds since the epoch, UTC. */
module ChartBuckets {
  import opened Numbers
  import opened Wrappers

  datatype Decision = Allow | Modify | Escalate | Block

  /** One point of the series: its time, if it parses, its decision, if it is a known one, and its requests. */
  datatype Point = Point(time: Option<int>, decision: Option<Decision>, requests: int)

  datatype Unit = Hour | Day

  const HOUR: int := 3_600_000
  const DAY: int := 24 * HOUR

  function Step(unit: Unit): (s: int)
    ensures s > 0
  {
    if unit == Hour then HOUR else DAY
  }

  /** The start of the hour or day that holds t, also before the epoch. */
  function FloorTo(t: int, unit: Unit): int {
    t - t % Step(unit)
  }

  /** An aligned start is the floor of exactly the times in its interval. */
  lemma FloorToIsStart(t: int, start: int, unit: Unit)
    requires start % Step(unit) == 0
    ensures FloorTo(t, unit) == start <==> start <= t < start + Step(unit)
  {
    var step := Step(unit);
    var q := start / step;
    assert start == q * step;
    if start <= t < start + step {
      RemainderIs(t, q, step);
    }
  }

  lemma RemainderIs(t: int, q: int, step: int)
    requires step > 0 && q * step <= t < q * step + step
    ensures t % step == t - q * step
  {
    var d := t / step;
    assert t == d * step + t % step;
    if d < q {
      MulStep(d + 1, q, step);
    } else if d > q {
      MulStep(q + 1, d, step);
    }
  }

  lemma MulStep(x: int, y: int, step: int)
    requires x <= y && step > 0
    ensures x * step <= y * step
  {
  }

  /** How many buckets cover the last `hours` hours; at least one. */
  function BucketCount(hours: real, unit: Unit): (n: nat)
    ensures n >= 1
  {
    var n := Ceiling(hours * HOUR as real / Step(unit) as real);
    if n < 1 then 1 else n
  }

  /** The buckets cover the last `hours` hours, and one bucket fewer would not (unless it is the only one); an hour
      has 3600 seconds and a day 24 hours. */
  lemma BucketCountIsLeast(hours: real, unit: Unit)
    ensures var n, seconds := BucketCount(hours, unit), if unit == Hour then 3600.0 else 86400.0;
            && n as real * seconds >= hours * 3600.0
            && (n > 1 ==> (n - 1) as real * seconds < hours * 3600.0)
    ensures Step(unit) == if unit == Hour then 3_600_000 else 86_400_000
  {
    var n := BucketCount(hours, unit);
    var seconds := if unit == Hour then 3600.0 else 86400.0;
    var wanted := hours * HOUR as real / Step(unit) as real;
    assert wanted * seconds == hours * 3600.0 by {
      if unit == Hour {
        assert wanted == hours;
      } else {
        assert wanted == hours / 24.0;
      }
    }
    ProductMonotone(wanted, n as real, seconds);
    if n > 1 {
      assert ((n - 1) as real - wanted) * seconds < 0.0;
    }
  }

  /** Whether a point counts for [lo, hi), for one decision or for any known one. */
  predicate Counts(p: Point, lo: int, hi: int, d: Option<Decision>) {
    p.time.Some? && lo <= p.time.value < hi && p.decision.Some? && (d.Some? ==> p.decision == d)
  }

  /** The requests of all points that count. */
  function Requests(series: seq<Point>, lo: int, hi: int, d: Option<Decision>): int {
    if series == [] then 0
    else
      var last := series[|series| - 1];
      Requests(series[..|series| - 1], lo, hi, d) + (if Counts(last, lo, hi, d) then last.requests else 0)
  }

  const DECISIONS: set<Decision> := {Allow, Modify, Escalate, Block}

  lemma AllDecisions()
    ensures forall d: Decision :: d in DECISIONS
  {
    forall d: Decision
      ensures d in DECISIONS
    {
      match d
      case Allow => case Modify => case Escalate => case Block =>
    }
  }

  function NoRequests(): (m: map<Decision, int>)
    ensures forall d: Decision :: d in m && m[d] == 0
  {
    AllDecisions();
    map d | d in DECISIONS :: 0
  }

  class Bucket {
    const start: int
    var counts: map<Decision, int>
    var total: int

    constructor (start: int)
      ensures this.start == start && total == 0
      ensures counts == NoRequests()
    {
      this.start := start;
      counts := NoRequests();
      total := 0;
    }
  }

  /** A bucket holds the requests of its interval, by decision and in total. */
  ghost predicate Holds(b: Bucket, series: seq<Point>, step: int)
    reads b
  {
    && (forall d: Decision :: d in b.counts && b.counts[d] == Requests(series, b.start, b.start + step, Some(d)))
    && b.total == Requests(series, b.start, b.start + step, None)
  }

  /** Contiguous buckets, one step apart. */
  ghost predicate Dense(buckets: seq<Bucket>, start: int, step: int) {
    && (buckets != [] ==> buckets[0].start == start)
    && forall i :: 0 < i < |buckets| ==> buckets[i].start == buckets[i - 1].start + step
  }

  /** The start of the bucket after the last. */
  function NextStart(buckets: seq<Bucket>, start: int, step: int): int {
    if buckets == [] then start else buckets[|buckets| - 1].start + step
  }

  /** The buckets by start time, the same objects as in the list. */
  ghost predicate Indexed(buckets: seq<Bucket>, index: map<int, Bucket>) {
    && (forall t :: t in index ==> index[t] in buckets && index[t].start == t)
    && (forall b :: b in buckets ==> b.start in index && index[b.start] == b)
  }

  lemma {:induction false} DenseStarts(buckets: seq<Bucket>, start: int, step: int, i: nat)
    requires Dense(buckets, start, step) && i < |buckets|
    ensures buckets[i].start == start + i * step
    decreases i
  {
    if i > 0 {
      DenseStarts(buckets, start, step, i - 1);
      assert (i - 1) * step + step == i * step;
    }
  }

  /** The first loop. */
  method EmptyBuckets(start: int, end: int, step: int) returns (buckets: seq<Bucket>, index: map<int, Bucket>)
    requires step > 0 && start <= end
    ensures Dense(buckets, start, step) && Indexed(buckets, index) && buckets != []
    ensures NextStart(buckets, start, step) - step <= end < NextStart(buckets, start, step)
    ensures forall b :: b in buckets ==> fresh(b) && b.counts == NoRequests() && b.total == 0
  {
    buckets, index := [], map[];
    var t := start;
    while t <= end
      invariant t == NextStart(buckets, start, step) && (if buckets == [] then t <= end else t - step <= end)
      invariant Dense(buckets, start, step) && Indexed(buckets, index)
      invariant forall b :: b in buckets ==> b.start < t && fresh(b) && b.counts == NoRequests() && b.total == 0
      decreases end - t
    {
      var b := new Bucket(t);
      buckets := buckets + [b];
      index := index[t := b];
      t := t + step;
    }
  }

  /** One point goes into the one bucket of its interval, if there is one and its decision is known. */
  method AddPoint(p: Point, unit: Unit, buckets: seq<Bucket>, index: map<int, Bucket>, ghost before: seq<Point>)
    requires Indexed(buckets, index)
    requires forall b :: b in buckets ==> b.start % Step(unit) == 0 && Holds(b, before, Step(unit))
    modifies buckets
    ensures forall b :: b in buckets ==> Holds(b, before + [p], Step(unit))
  {
    ghost var after := before + [p];
    assert after[..|before|] == before;
    if p.time.None? {
      return;
    }
    var t := p.time.value;
    var f := FloorTo(t, unit);
    forall b | b in buckets
      ensures FloorTo(t, unit) == b.start <==> b.start <= t < b.start + Step(unit)
    {
      FloorToIsStart(t, b.start, unit);
    }
    if f !in index || p.decision.None? {
      return;
    }
    var b := index[f];
    var d := p.decision.value;
    b.counts := b.counts[d := b.counts[d] + p.requests];
    b.total := b.total + p.requests;
  }

  lemma {:induction false} DenseAligned(buckets: seq<Bucket>, start: int, unit: Unit)
    requires Dense(buckets, start, Step(unit)) && start % Step(unit) == 0
    ensures forall i :: 0 <= i < |buckets| ==> buckets[i].start % Step(unit) == 0
    decreases |buckets|
  {
    if buckets != [] {
      var rest := buckets[..|buckets| - 1];
      DenseAligned(rest, start, unit);
      assert forall i :: 0 <= i < |rest| ==> buckets[i] == rest[i];
      if rest != [] {
        var x, step := rest[|rest| - 1].start, Step(unit);
        RemainderIs(x + step, x / step + 1, step);
      }
    }
  }

  lemma StartIsAligned(now: int, unit: Unit, count: nat)
    requires count >= 1
    ensures var start := FloorTo(now, unit) - (count - 1) * Step(unit);
            start <= FloorTo(now, unit) && start % Step(unit) == 0
  {
  }

  lemma CountIsRight(buckets: seq<Bucket>, start: int, end: int, step: int, count: nat)
    requires step > 0 && count >= 1 && buckets != [] && Dense(buckets, start, step)
    requires start == end - (count - 1) * step
    requires NextStart(buckets, start, step) - step <= end < NextStart(buckets, start, step)
    ensures |buckets| == count
    ensures forall i :: 0 <= i < count ==> buckets[i].start == end - (count - 1 - i) * step
  {
    DenseStarts(buckets, start, step, |buckets| - 1);
    if |buckets| < count {
      MulStep(|buckets|, count - 1, step);
    } else if |buckets| > count {
      MulStep(count, |buckets| - 1, step);
    }
    forall i | 0 <= i < count
      ensures buckets[i].start == end - (count - 1 - i) * step
    {
      DenseStarts(buckets, start, step, i);
      assert (count - 1) * step == (count - 1 - i) * step + i * step;
    }
  }

  // ----- Conservation

  lemma {:induction false} RequestsSplit(series: seq<Point>, lo: int, mid: int, hi: int, d: Option<Decision>)
    requires lo <= mid <= hi
    ensures Requests(series, lo, hi, d) == Requests(series, lo, mid, d) + Requests(series, mid, hi, d)
    decreases |series|
  {
    if series != [] {
      RequestsSplit(series[..|series| - 1], lo, mid, hi, d);
    }
  }

  /** One more point adds its requests to the intervals that hold its time, for its decision and in total, if the
      decision is a known one; without points there are none. */
  lemma OnePointMore(series: seq<Point>, p: Point, lo: int, hi: int, d: Option<Decision>)
    ensures Requests([], lo, hi, d) == 0
    ensures Requests(series + [p], lo, hi, d) - Requests(series, lo, hi, d)
            == match (p.time, p.decision)
               case (Some(t), Some(known)) =>
                 if lo <= t && t < hi && (d == None || d == Some(known)) then p.requests else 0
               case _ => 0
  {
    assert (series + [p])[..|series|] == series;
  }

  /** The total is the sum over the decisions. */
  lemma {:induction false} TotalIsSumOfCounts(series: seq<Point>, lo: int, hi: int)
    ensures Requests(series, lo, hi, None)
            == Requests(series, lo, hi, Some(Allow)) + Requests(series, lo, hi, Some(Modify))
               + Requests(series, lo, hi, Some(Escalate)) + Requests(series, lo, hi, Some(Block))
    decreases |series|
  {
    if series != [] {
      TotalIsSumOfCounts(series[..|series| - 1], lo, hi);
      AllDecisions();
      var d := series[|series| - 1].decision;
      assert d.Some? ==> d.value in DECISIONS;
    }
  }

  function SumOfTotals(buckets: seq<Bucket>): int
    reads buckets
  {
    if buckets == [] then 0
    else SumOfTotals(buckets[..|buckets| - 1]) + buckets[|buckets| - 1].total
  }

  /** Nothing is lost and nothing counted twice: the totals of dense buckets add up to all requests in
      the window with a known decision. */
  lemma {:induction false} BucketsConserve(buckets: seq<Bucket>, series: seq<Point>, start: int, step: int)
    requires step > 0 && Dense(buckets, start, step) && forall b :: b in buckets ==> Holds(b, series, step)
    ensures start <= NextStart(buckets, start, step)
    ensures SumOfTotals(buckets) == Requests(series, start, NextStart(buckets, start, step), None)
    decreases |buckets|
  {
    if buckets == [] {
      NothingInEmpty(series, start);
    } else {
      var rest, last := buckets[..|buckets| - 1], buckets[|buckets| - 1];
      assert last in buckets && Holds(last, series, step);
      BucketsConserve(rest, series, start, step);
      assert NextStart(rest, start, step) == last.start;
      RequestsSplit(series, start, last.start, last.start + step, None);
    }
  }

  lemma {:induction false} NothingInEmpty(series: seq<Point>, t: int)
    ensures Requests(series, t, t, None) == 0
    decreases |series|
  {
    if series != [] {
      NothingInEmpty(series[..|series| - 1], t);
    }
  }

  /** The buckets of the whole window, oldest first. Nothing is lost and nothing counted twice: their totals
      add up to all requests in the window with a known decision. */
  method BuildBuckets(series: seq<Point>, hours: real, unit: Unit, now: int) returns (buckets: seq<Bucket>)
    ensures |buckets| == BucketCount(hours, unit)
    ensures forall i :: 0 <= i < |buckets| ==>
      buckets[i].start == FloorTo(now, unit) - (|buckets| - 1 - i) * Step(unit)
    ensures forall b :: b in buckets ==> fresh(b) && Holds(b, series, Step(unit))
    ensures SumOfTotals(buckets) == Requests(series, buckets[0].start, FloorTo(now, unit) + Step(unit), None)
  {
    var step, end := Step(unit), FloorTo(now, unit);
    var count := BucketCount(hours, unit);
    var start := end - (count - 1) * step;
    var index;
    StartIsAligned(now, unit, count);
    buckets, index := EmptyBuckets(start, end, step);
    CountIsRight(buckets, start, end, step, count);
    DenseAligned(buckets, start, unit);
    var n := 0;
    while n < |series|
      invariant 0 <= n <= |series|
      invariant forall b :: b in buckets ==> Holds(b, series[..n], step)
    {
      assert series[..n] + [series[n]] == series[..n + 1];
      AddPoint(series[n], unit, buckets, index, series[..n]);
      n := n + 1;
    }
    assert series[..n] == series;
    BucketsConserve(buckets, series, start, step);
  }
}
