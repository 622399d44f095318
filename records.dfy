/** One row of the life-expectancy table after the loader's numeric coercion, and
    `d3.extent`, the min/max scan that every scale domain in the script comes from. */
module Records {
  import opened Wrappers

  /** A numeric column after unary `+`: `None` stands for NaN. */
  type Number = Option<real>

  /** One (country, year) observation. `status` stays free text, because the filter
      compares it with whatever string the status drop-down holds. */
  datatype Row = Row(
    country: string,
    status: string,
    year: int,
    lifeExpectancy: Number,
    gdp: Number,
    alcohol: Number,
    hivAids: Number,
    population: Number,
    schooling: Number)

  /** The numeric columns, so that one extent scan serves every accessor `d => d.<field>`. */
  datatype Field = LifeExpectancy | Gdp | Alcohol | HivAids | Population | Schooling

  function Value(r: Row, f: Field): Number {
    match f
    case LifeExpectancy => r.lifeExpectancy
    case Gdp => r.gdp
    case Alcohol => r.alcohol
    case HivAids => r.hivAids
    case Population => r.population
    case Schooling => r.schooling
  }

  /** `v >= 0` in JavaScript: false for NaN. */
  predicate NonNegative(v: Number) {
    v.Some? && v.value >= 0.0
  }

  /** `v > 0` in JavaScript: false for NaN. */
  predicate Positive(v: Number) {
    v.Some? && v.value > 0.0
  }

  /** A scale domain `[lo, hi]`. */
  datatype Bounds = Bounds(lo: real, hi: real)

  /** `d3.extent(rows, d => d[f])`: the least and greatest non-NaN value of column `f`,
      scanning the rows in order; `None` for `[undefined, undefined]`, which d3
      returns when no row has a number there. */
  function Extent(rows: seq<Row>, f: Field): (e: Option<Bounds>)
    ensures e.None? <==> forall i :: 0 <= i < |rows| ==> Value(rows[i], f).None?
    ensures e.Some? ==> e.value.lo <= e.value.hi
    ensures e.Some? ==> forall i :: 0 <= i < |rows| && Value(rows[i], f).Some? ==>
                          e.value.lo <= Value(rows[i], f).value <= e.value.hi
    ensures e.Some? ==> exists i :: 0 <= i < |rows| && Value(rows[i], f) == Some(e.value.lo)
    ensures e.Some? ==> exists i :: 0 <= i < |rows| && Value(rows[i], f) == Some(e.value.hi)
  {
    if rows == [] then None
    else
      var front, last := rows[..|rows| - 1], rows[|rows| - 1];
      var e := Extent(front, f);
      assert forall i :: 0 <= i < |front| ==> rows[i] == front[i];
      match Value(last, f)
      case None => e
      case Some(v) =>
        if e.None? then Some(Bounds(v, v))
        else
          var lo := if v < e.value.lo then v else e.value.lo;
          var hi := if e.value.hi < v then v else e.value.hi;
          assert exists i :: 0 <= i < |rows| && Value(rows[i], f) == Some(lo) by {
            if v >= e.value.lo {
              var i :| 0 <= i < |front| && Value(front[i], f) == Some(e.value.lo);
              assert rows[i] == front[i];
            }
          }
          assert exists i :: 0 <= i < |rows| && Value(rows[i], f) == Some(hi) by {
            if e.value.hi >= v {
              var i :| 0 <= i < |front| && Value(front[i], f) == Some(e.value.hi);
              assert rows[i] == front[i];
            }
          }
          Some(Bounds(lo, hi))
  }

  /** Over values that are all non-negative the extent starts at zero or above. */
  lemma ExtentNonNegative(rows: seq<Row>, f: Field)
    requires forall i :: 0 <= i < |rows| ==> NonNegative(Value(rows[i], f))
    ensures Extent(rows, f).Some? ==> 0.0 <= Extent(rows, f).value.lo
  {
    var e := Extent(rows, f);
    if e.Some? {
      var i :| 0 <= i < |rows| && Value(rows[i], f) == Some(e.value.lo);
      assert NonNegative(Value(rows[i], f));
    }
  }

  /** Over values that are all positive the extent starts above zero. */
  lemma ExtentPositive(rows: seq<Row>, f: Field)
    requires forall i :: 0 <= i < |rows| ==> Positive(Value(rows[i], f))
    ensures Extent(rows, f).Some? ==> 0.0 < Extent(rows, f).value.lo
  {
    var e := Extent(rows, f);
    if e.Some? {
      var i :| 0 <= i < |rows| && Value(rows[i], f) == Some(e.value.lo);
      assert Positive(Value(rows[i], f));
    }
  }

  /** The contract of `Extent` for the life-expectancy column, on the rows themselves. */
  lemma LifeExpectancyExtent(rows: seq<Row>)
    ensures var e := Extent(rows, LifeExpectancy);
            (e.None? <==> forall i :: 0 <= i < |rows| ==> rows[i].lifeExpectancy.None?) &&
            (e.Some? ==>
              (forall i :: 0 <= i < |rows| && rows[i].lifeExpectancy.Some? ==>
                 e.value.lo <= rows[i].lifeExpectancy.value <= e.value.hi) &&
              (exists i :: 0 <= i < |rows| && rows[i].lifeExpectancy == Some(e.value.lo)) &&
              (exists i :: 0 <= i < |rows| && rows[i].lifeExpectancy == Some(e.value.hi)))
  {
    assert forall i :: 0 <= i < |rows| ==> Value(rows[i], LifeExpectancy) == rows[i].lifeExpectancy;
  }
}
