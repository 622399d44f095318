/** The data derivations of the two scatter scenes, `renderGDPImpact`
    (script.js:178-259, which plots alcohol consumption) and `renderUserExplore`
    (script.js:262-343, which plots HIV/AIDS prevalence): keep the plottable rows
    and take the extent of each axis over them. */
module Scatter {
  import opened Wrappers
  import opened Seqs
  import opened Records

  /** `d => d[x] >= 0 && d.life_expectancy > 0`; a NaN in either column drops the row. */
  predicate Plottable(r: Row, x: Field) {
    NonNegative(Value(r, x)) && Positive(r.lifeExpectancy)
  }

  function Keeps(x: Field): Row -> bool {
    (r: Row) => Plottable(r, x)
  }

  /** The points of a scatter scene and its two domains. */
  datatype ScatterView = ScatterView(points: seq<Row>, xDomain: Option<Bounds>, yDomain: Option<Bounds>)

  /** Filter the dataset to the plottable rows for metric `x`, then take `d3.extent` of
      `x` and of life expectancy over them. */
  function ScatterOf(data: seq<Row>, x: Field): (v: ScatterView)
    ensures forall r :: r in v.points <==> r in data && Plottable(r, x)
    ensures forall i :: 0 <= i < |v.points| ==> Plottable(v.points[i], x)
    ensures IsSubsequence(v.points, data)
    ensures v.xDomain.Some? <==> v.points != []
    ensures v.yDomain.Some? <==> v.points != []
  {
    var points := Filter(data, Keeps(x));
    FilterIsSubsequence(data, Keeps(x));
    assert forall i :: 0 <= i < |points| ==> points[i] in points;
    ScatterView(points, Extent(points, x), Extent(points, LifeExpectancy))
  }

  /** Proof aid: the two domains of `ScatterOf`, restating its body. */
  lemma ScatterSteps(data: seq<Row>, x: Field)
    ensures var v := ScatterOf(data, x);
            v.xDomain == Extent(v.points, x) && v.yDomain == Extent(v.points, LifeExpectancy)
  {
  }

  /** ... and each plottable row is kept as often as it occurs in the dataset. */
  lemma ScatterCount(data: seq<Row>, x: Field, r: Row)
    ensures multiset(ScatterOf(data, x).points)[r] == if Plottable(r, x) then multiset(data)[r] else 0
  {
    FilterCount(data, Keeps(x), r);
  }

  /** The x domain bounds the metric of every point, is attained by some point, and
      starts at zero or above. */
  lemma ScatterXDomain(data: seq<Row>, x: Field)
    ensures var v := ScatterOf(data, x);
            v.xDomain.Some? ==>
              (forall i :: 0 <= i < |v.points| ==> v.xDomain.value.lo <= Value(v.points[i], x).value <= v.xDomain.value.hi) &&
              (exists i :: 0 <= i < |v.points| && Value(v.points[i], x) == Some(v.xDomain.value.lo)) &&
              (exists i :: 0 <= i < |v.points| && Value(v.points[i], x) == Some(v.xDomain.value.hi)) &&
              0.0 <= v.xDomain.value.lo
  {
    var v := ScatterOf(data, x);
    ScatterSteps(data, x);
    ExtentNonNegative(v.points, x);
  }

  /** The y domain bounds the life expectancy of every point, is attained by some
      point, and starts above zero. */
  lemma ScatterYDomain(data: seq<Row>, x: Field)
    ensures var v := ScatterOf(data, x);
            v.yDomain.Some? ==>
              (forall i :: 0 <= i < |v.points| ==>
                 v.yDomain.value.lo <= v.points[i].lifeExpectancy.value <= v.yDomain.value.hi) &&
              (exists i :: 0 <= i < |v.points| && v.points[i].lifeExpectancy == Some(v.yDomain.value.lo)) &&
              (exists i :: 0 <= i < |v.points| && v.points[i].lifeExpectancy == Some(v.yDomain.value.hi)) &&
              0.0 < v.yDomain.value.lo
  {
    var v := ScatterOf(data, x);
    ScatterSteps(data, x);
    LifeExpectancyExtent(v.points);
    ExtentPositive(v.points, LifeExpectancy);
  }

  /** Scene 1 (script.js:194-206): the rows with `alcohol >= 0 && life_expectancy > 0`. */
  function GdpImpact(data: seq<Row>): (v: ScatterView)
    ensures forall r :: r in v.points <==> r in data && NonNegative(r.alcohol) && Positive(r.lifeExpectancy)
    ensures IsSubsequence(v.points, data)
  {
    ScatterOf(data, Alcohol)
  }

  /** Scene 2 (script.js:278-290): the rows with `hiv_aids >= 0 && life_expectancy > 0`. */
  function UserExplore(data: seq<Row>): (v: ScatterView)
    ensures forall r :: r in v.points <==> r in data && NonNegative(r.hivAids) && Positive(r.lifeExpectancy)
    ensures IsSubsequence(v.points, data)
  {
    ScatterOf(data, HivAids)
  }

  /** Scene 1 keeps each row with `alcohol >= 0 && life_expectancy > 0` as often as it
      occurs in the dataset, and drops every other row. */
  lemma GdpImpactCount(data: seq<Row>, r: Row)
    ensures multiset(GdpImpact(data).points)[r] ==
              if NonNegative(r.alcohol) && Positive(r.lifeExpectancy) then multiset(data)[r] else 0
  {
    ScatterCount(data, Alcohol, r);
  }

  /** Scene 2 keeps each row with `hiv_aids >= 0 && life_expectancy > 0` as often as it
      occurs in the dataset, and drops every other row. */
  lemma UserExploreCount(data: seq<Row>, r: Row)
    ensures multiset(UserExplore(data).points)[r] ==
              if NonNegative(r.hivAids) && Positive(r.lifeExpectancy) then multiset(data)[r] else 0
  {
    ScatterCount(data, HivAids, r);
  }
}
