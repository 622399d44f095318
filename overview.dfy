/** The data derivations of scene 0, `renderOverview` (script.js:53-169): the
    countries shown, the rows drawn, the per-country series, the y-domain, the end
    label of each line and the end-year annotations. The drawing itself is not here. */
module Overview {
  import opened Wrappers
  import opened Seqs
  import opened Records

  /** Both `slice(0, 5)` calls: at most five countries, at most five annotations. */
  const MaxCountries: nat := 5

  /** `parameters.yearRange`, both ends inclusive. */
  datatype YearRange = YearRange(first: int, last: int)

  /** `parameters.selectedStatus === "all" || d.status === parameters.selectedStatus`. */
  predicate StatusMatches(status: string, r: Row) {
    status == "all" || r.status == status
  }

  function MatchesStatus(status: string): Row -> bool {
    (r: Row) => StatusMatches(status, r)
  }

  /** `rows.map(d => d.country)`. */
  function Countries(rows: seq<Row>): (cs: seq<string>)
    ensures |cs| == |rows|
    ensures forall i :: 0 <= i < |rows| ==> cs[i] == rows[i].country
  {
    seq(|rows|, i requires 0 <= i < |rows| => rows[i].country)
  }

  /** The country of every row passing the status filter, in row order, repeats included. */
  function StatusCountries(data: seq<Row>, status: string): seq<string> {
    Countries(Filter(data, MatchesStatus(status)))
  }

  /** `countryList` (script.js:68-70): the first five distinct countries, in the order
      their first matching row appears, among the rows whose status passes the filter. */
  function CountryList(data: seq<Row>, status: string): (cl: seq<string>)
    ensures |cl| <= MaxCountries
    ensures NoDups(cl)
    ensures forall c :: c in cl ==> exists r :: r in data && r.country == c && StatusMatches(status, r)
  {
    var matching := Filter(data, MatchesStatus(status));
    var sc := Countries(matching);
    var cl := Take(Distinct(sc), MaxCountries);
    assert forall c :: c in cl ==> exists r :: r in data && r.country == c && StatusMatches(status, r) by {
      forall c | c in cl ensures exists r :: r in data && r.country == c && StatusMatches(status, r) {
        assert c in Distinct(sc);
        var i := IndexOf(sc, c);
        assert matching[i] in matching;
      }
    }
    cl
  }

  /** The overview filter (script.js:75-79) as a predicate on one row. */
  function InOverview(countries: seq<string>, years: YearRange): Row -> bool {
    (r: Row) => r.country in countries && years.first <= r.year <= years.last
  }

  /** `filtered` (script.js:75-79): the rows of a listed country whose year lies in the
      range, in dataset order, each as often as it occurs in the dataset. */
  function OverviewRows(data: seq<Row>, countries: seq<string>, years: YearRange): (rows: seq<Row>)
    ensures forall r :: r in rows <==> r in data && r.country in countries && years.first <= r.year <= years.last
    ensures IsSubsequence(rows, data)
  {
    FilterIsSubsequence(data, InOverview(countries, years));
    Filter(data, InOverview(countries, years))
  }

  /** ... and each kept row occurs as often as in the dataset. */
  lemma OverviewRowsCount(data: seq<Row>, countries: seq<string>, years: YearRange, r: Row)
    ensures multiset(OverviewRows(data, countries, years))[r] ==
              if r.country in countries && years.first <= r.year <= years.last then multiset(data)[r] else 0
  {
    FilterCount(data, InOverview(countries, years), r);
  }

  /** One entry `[country, values]` of `d3.groups`. */
  datatype Group = Group(key: string, values: seq<Row>)

  function Keys(gs: seq<Group>): (ks: seq<string>)
    ensures |ks| == |gs|
    ensures forall i :: 0 <= i < |gs| ==> ks[i] == gs[i].key
  {
    seq(|gs|, i requires 0 <= i < |gs| => gs[i].key)
  }

  function HasCountry(k: string): Row -> bool {
    (r: Row) => r.country == k
  }

  /** One step of `d3.groups`: look the row's country up among the keys; append the row
      to that group, or open a new group for it at the end. */
  function AddRow(gs: seq<Group>, r: Row): (out: seq<Group>)
    requires UniqueKeys(gs)
    ensures |out| == if r.country in Keys(gs) then |gs| else |gs| + 1
    ensures forall i :: 0 <= i < |gs| ==>
              out[i] == if gs[i].key == r.country then Group(r.country, gs[i].values + [r]) else gs[i]
    ensures r.country !in Keys(gs) ==> out[|gs|] == Group(r.country, [r])
  {
    var ks := Keys(gs);
    if r.country in ks then
      var k := IndexOf(ks, r.country);
      gs[k := Group(r.country, gs[k].values + [r])]
    else
      gs + [Group(r.country, [r])]
  }

  /** No two groups share a key, as in the map d3 builds. */
  predicate UniqueKeys(gs: seq<Group>) {
    forall i, j :: 0 <= i < j < |gs| ==> gs[i].key != gs[j].key
  }

  lemma UniqueKeysOf(gs: seq<Group>)
    requires NoDups(Keys(gs))
    ensures UniqueKeys(gs)
  {
    var ks := Keys(gs);
    forall i, j | 0 <= i < j < |gs| ensures gs[i].key != gs[j].key {
      assert ks[i] != ks[j];
    }
  }

  /** `d3.groups(rows, d => d.country)` (script.js:81), built row by row as d3 does. The
      keys are the distinct countries in first-appearance order, and the group of a
      country holds exactly that country's rows, in row order. */
  function GroupByCountry(rows: seq<Row>): (gs: seq<Group>)
    ensures Keys(gs) == Distinct(Countries(rows))
    ensures forall i :: 0 <= i < |gs| ==> gs[i].values == Filter(rows, HasCountry(gs[i].key))
    ensures forall i :: 0 <= i < |gs| ==> gs[i].values != []
  {
    if rows == [] then []
    else
      var front, last := rows[..|rows| - 1], rows[|rows| - 1];
      assert rows == front + [last];
      var before := GroupByCountry(front);
      UniqueKeysOf(before);
      GroupKeysStep(front, last, before);
      GroupValuesStep(front, last, before);
      GroupNonEmptyStep(last, before);
      AddRow(before, last)
  }

  lemma GroupKeysStep(front: seq<Row>, last: Row, before: seq<Group>)
    requires UniqueKeys(before) && Keys(before) == Distinct(Countries(front))
    ensures Keys(AddRow(before, last)) == Distinct(Countries(front + [last]))
  {
    var gs := AddRow(before, last);
    var cs := Countries(front + [last]);
    assert cs[..|cs| - 1] == Countries(front) && cs[|cs| - 1] == last.country;
    if last.country in Keys(before) {
      assert Keys(gs) == Keys(before);
    } else {
      assert Keys(gs) == Keys(before) + [last.country];
    }
  }

  lemma GroupNonEmptyStep(last: Row, before: seq<Group>)
    requires UniqueKeys(before)
    requires forall i :: 0 <= i < |before| ==> before[i].values != []
    ensures var gs := AddRow(before, last); forall i :: 0 <= i < |gs| ==> gs[i].values != []
  {
    var gs := AddRow(before, last);
    forall i | 0 <= i < |gs| ensures gs[i].values != [] {
      if i < |before| {
        assert gs[i].values == before[i].values || gs[i].values == before[i].values + [last];
      } else {
        assert gs[i] == Group(last.country, [last]);
      }
    }
  }

  lemma GroupValuesStep(front: seq<Row>, last: Row, before: seq<Group>)
    requires UniqueKeys(before) && Keys(before) == Distinct(Countries(front))
    requires forall i :: 0 <= i < |before| ==> before[i].values == Filter(front, HasCountry(before[i].key))
    ensures var gs := AddRow(before, last);
            forall i :: 0 <= i < |gs| ==> gs[i].values == Filter(front + [last], HasCountry(gs[i].key))
  {
    var gs := AddRow(before, last);
    forall i | 0 <= i < |gs| ensures gs[i].values == Filter(front + [last], HasCountry(gs[i].key)) {
      FilterStep(front, last, HasCountry(gs[i].key));
      if i == |before| {
        NoRowsOfAbsentCountry(front, last.country);
      }
    }
  }

  lemma FilterStep(front: seq<Row>, last: Row, p: Row -> bool)
    ensures Filter(front + [last], p) == Filter(front, p) + if p(last) then [last] else []
  {
    var rows := front + [last];
    assert rows[..|rows| - 1] == front && rows[|rows| - 1] == last;
  }

  lemma NoRowsOfAbsentCountry(rows: seq<Row>, c: string)
    requires c !in Countries(rows)
    ensures Filter(rows, HasCountry(c)) == []
  {
  }

  /** The end label of each line (script.js:134-137): the group's last row. */
  datatype Label = Label(country: string, point: Row)

  function Labels(gs: seq<Group>): (ls: seq<Label>)
    requires forall i :: 0 <= i < |gs| ==> gs[i].values != []
    ensures |ls| == |gs|
    ensures forall i :: 0 <= i < |gs| ==>
              ls[i].country == gs[i].key && ls[i].point == gs[i].values[|gs[i].values| - 1]
  {
    seq(|gs|, i requires 0 <= i < |gs| => Label(gs[i].key, gs[i].values[|gs[i].values| - 1]))
  }

  /** `values.find(d => d.year === year)` (script.js:146). */
  function FindYear(values: seq<Row>, year: int): (found: Option<Row>)
    ensures found.None? <==> forall i :: 0 <= i < |values| ==> values[i].year != year
    ensures found.Some? ==> exists i :: 0 <= i < |values| && values[i] == found.value && found.value.year == year
                                        && forall k :: 0 <= k < i ==> values[k].year != year
  {
    if values == [] then None
    else if values[0].year == year then
      Some(values[0])
    else
      var rest := FindYear(values[1..], year);
      assert forall i :: 1 <= i < |values| ==> values[i] == values[1..][i - 1];
      assert rest.Some? ==> exists i :: 0 <= i < |values| && values[i] == rest.value && rest.value.year == year
                                        && forall k :: 0 <= k < i ==> values[k].year != year by {
        if rest.Some? {
          var i :| 0 <= i < |values[1..]| && values[1..][i] == rest.value && rest.value.year == year
                   && forall k :: 0 <= k < i ==> values[1..][k].year != year;
          assert values[i + 1] == rest.value;
        }
      }
      rest
  }

  /** An end-year callout (script.js:147-156): the country as title, the row it points at. */
  datatype Annotation = Annotation(title: string, point: Row)

  /** `gs.map(...)` of script.js:145-157: one callout per group, at the group's first
      row of `endYear`. The first group without such a row makes `lastPoint` undefined,
      and reading `lastPoint.life_expectancy` throws a TypeError: `Err(country)`. */
  function Annotate(gs: seq<Group>, endYear: int): (r: Result<seq<Annotation>, string>)
    ensures r.Ok? <==> forall i :: 0 <= i < |gs| ==> FindYear(gs[i].values, endYear).Some?
    ensures r.Ok? ==> |r.value| == |gs|
    ensures r.Ok? ==> forall i :: 0 <= i < |gs| ==>
              r.value[i].title == gs[i].key && Some(r.value[i].point) == FindYear(gs[i].values, endYear)
  {
    if gs == [] then Ok([])
    else
      match FindYear(gs[0].values, endYear)
      case None => Err(gs[0].key)
      case Some(p) =>
        var rest := Annotate(gs[1..], endYear);
        assert forall i :: 1 <= i < |gs| ==> gs[i] == gs[1..][i - 1];
        if rest.Err? then Err(rest.error) else Ok([Annotation(gs[0].key, p)] + rest.value)
  }

  /** The error names the first group, in group order, that has no row of `endYear`. */
  lemma {:induction false} AnnotateFailsAtFirstMissing(gs: seq<Group>, endYear: int) returns (i: nat)
    requires Annotate(gs, endYear).Err?
    ensures i < |gs| && gs[i].key == Annotate(gs, endYear).error
    ensures FindYear(gs[i].values, endYear).None?
    ensures forall k :: 0 <= k < i ==> FindYear(gs[k].values, endYear).Some?
  {
    if FindYear(gs[0].values, endYear).None? {
      i := 0;
    } else {
      var j := AnnotateFailsAtFirstMissing(gs[1..], endYear);
      i := j + 1;
      assert forall k :: 1 <= k < |gs| ==> gs[k] == gs[1..][k - 1];
    }
  }

  /** Everything scene 0 derives before drawing. */
  datatype OverviewView = OverviewView(
    countries: seq<string>,
    rows: seq<Row>,
    groups: seq<Group>,
    yDomain: Option<Bounds>,
    labels: seq<Label>,
    annotations: Result<seq<Annotation>, string>)

  /** The derivation chain of `renderOverview` for the dataset and the current
      `selectedStatus` and `yearRange`. */
  function OverviewOf(data: seq<Row>, status: string, years: YearRange): (v: OverviewView)
    ensures |v.groups| <= |v.countries| <= MaxCountries
    ensures |v.labels| == |v.groups|
    ensures v.annotations.Ok? ==> |v.annotations.value| == |v.groups|
  {
    var countries := CountryList(data, status);
    var rows := OverviewRows(data, countries, years);
    var groups := GroupByCountry(rows);
    GroupCountBound(rows, countries);
    assert Take(groups, MaxCountries) == groups;
    OverviewView(countries, rows, groups, Extent(rows, LifeExpectancy), Labels(groups),
                 Annotate(Take(groups, MaxCountries), years.last))
  }

  /** The countries of the view are `countryList`. */
  lemma OverviewCountries(data: seq<Row>, status: string, years: YearRange)
    ensures OverviewOf(data, status, years).countries == CountryList(data, status)
  {
  }

  /** The groups are no more than the countries the rows were filtered to. */
  lemma GroupCountBound(rows: seq<Row>, countries: seq<string>)
    requires forall r :: r in rows ==> r.country in countries
    ensures |GroupByCountry(rows)| <= |countries|
  {
    var ks := Keys(GroupByCountry(rows));
    forall c | c in ks ensures c in countries {
      var i := IndexOf(Countries(rows), c);
      assert rows[i] in rows;
    }
    NoDupsWithin(ks, countries);
  }

  /** The list is in first-seen order, and it is the FIRST five: a matching country
      left out means the list is full and every listed country was seen before it. */
  lemma {:induction false} CountryListFirstSeen(data: seq<Row>, status: string)
    ensures var cl, sc := CountryList(data, status), StatusCountries(data, status);
            (forall c :: c in cl ==> c in sc) && FirstSeenOrder(cl, sc)
    ensures var cl, sc := CountryList(data, status), StatusCountries(data, status);
            forall r :: r in data && StatusMatches(status, r) && r.country !in cl ==>
              r.country in sc && |cl| == MaxCountries &&
              forall k :: 0 <= k < |cl| ==> IndexOf(sc, cl[k]) < IndexOf(sc, r.country)
  {
    var matching := Filter(data, MatchesStatus(status));
    var sc := Countries(matching);
    var d := Distinct(sc);
    var cl := CountryList(data, status);
    assert cl == Take(d, MaxCountries);
    DistinctFirstSeen(sc);
    assert FirstSeenOrder(d, sc);
    forall i, j | 0 <= i < j < |cl| ensures IndexOf(sc, cl[i]) < IndexOf(sc, cl[j]) {
      assert cl[i] == d[i] && cl[j] == d[j];
    }
    forall r | r in data && StatusMatches(status, r) && r.country !in cl
      ensures r.country in sc && |cl| == MaxCountries
      ensures forall k :: 0 <= k < |cl| ==> IndexOf(sc, cl[k]) < IndexOf(sc, r.country)
    {
      assert r in matching;
      var i := IndexOf(matching, r);
      assert sc[i] == r.country;
      assert r.country in d;
      var m := IndexOf(d, r.country);
      assert |d| > MaxCountries && m >= MaxCountries;
      forall k | 0 <= k < |cl| ensures IndexOf(sc, cl[k]) < IndexOf(sc, r.country) {
        assert cl[k] == d[k] && d[m] == r.country;
      }
    }
  }

  /** Every row lies in the group keyed by its own country. */
  lemma {:induction false} GroupsCover(rows: seq<Row>, r: Row) returns (i: nat)
    requires r in rows
    ensures i < |GroupByCountry(rows)|
    ensures GroupByCountry(rows)[i].key == r.country && r in GroupByCountry(rows)[i].values
  {
    var gs, cs := GroupByCountry(rows), Countries(rows);
    var ks := Keys(gs);
    var j := IndexOf(rows, r);
    assert cs[j] == r.country;
    assert r.country in ks;
    i := IndexOf(ks, r.country);
    assert gs[i].key == r.country;
    assert gs[i].values == Filter(rows, HasCountry(r.country));
    assert HasCountry(r.country)(r);
    assert r in Filter(rows, HasCountry(r.country));
  }

  /** A group holds only rows of its own country, so no row lies in two groups. */
  lemma {:induction false} GroupsDisjoint(rows: seq<Row>, i: nat, j: nat, r: Row)
    requires i < |GroupByCountry(rows)| && j < |GroupByCountry(rows)|
    requires r in GroupByCountry(rows)[i].values
    ensures r in rows && r.country == GroupByCountry(rows)[i].key
    ensures r in GroupByCountry(rows)[j].values ==> i == j
  {
    var gs := GroupByCountry(rows);
    var ks := Keys(gs);
    assert ks[i] == gs[i].key && ks[j] == gs[j].key;
  }

  /** Group keys are distinct countries of the rows, ordered by first appearance. */
  lemma {:induction false} GroupKeysFirstSeen(rows: seq<Row>)
    ensures var ks, cs := Keys(GroupByCountry(rows)), Countries(rows);
            NoDups(ks) && (forall k :: k in ks ==> k in cs) && FirstSeenOrder(ks, cs)
  {
    DistinctFirstSeen(Countries(rows));
  }

  /** The annotations are built exactly when every group has a row of the end year. */
  lemma {:induction false} AnnotateSucceeds(gs: seq<Group>, endYear: int)
    ensures Annotate(gs, endYear).Ok? <==>
              forall i :: 0 <= i < |gs| ==> exists r :: r in gs[i].values && r.year == endYear
  {
    forall i | 0 <= i < |gs|
      ensures FindYear(gs[i].values, endYear).Some? <==> exists r :: r in gs[i].values && r.year == endYear
    {
      var vs := gs[i].values;
      if FindYear(vs, endYear).None? {
        forall r | r in vs ensures r.year != endYear {
          var k := IndexOf(vs, r);
        }
      }
    }
  }

  /** The end label of a line is the LAST row of that country in dataset order, whatever
      its year. */
  lemma {:induction false} LabelIsLastRow(rows: seq<Row>, i: nat) returns (j: nat)
    requires i < |GroupByCountry(rows)|
    ensures var l := Labels(GroupByCountry(rows))[i];
            l.country == GroupByCountry(rows)[i].key &&
            j < |rows| && rows[j] == l.point && rows[j].country == l.country
    ensures forall k :: j < k < |rows| ==> rows[k].country != GroupByCountry(rows)[i].key
  {
    var gs := GroupByCountry(rows);
    j := FilterLast(rows, HasCountry(gs[i].key));
  }

  /** The y-domain is `[min, max]` of the non-NaN life expectancies of the drawn rows,
      `None` when there is none. */
  lemma OverviewYDomain(data: seq<Row>, status: string, years: YearRange)
    ensures var v := OverviewOf(data, status, years);
            v.yDomain.None? <==> forall i :: 0 <= i < |v.rows| ==> v.rows[i].lifeExpectancy.None?
    ensures var v := OverviewOf(data, status, years);
            v.yDomain.Some? ==>
              (forall i :: 0 <= i < |v.rows| && v.rows[i].lifeExpectancy.Some? ==>
                 v.yDomain.value.lo <= v.rows[i].lifeExpectancy.value <= v.yDomain.value.hi) &&
              (exists i :: 0 <= i < |v.rows| && v.rows[i].lifeExpectancy == Some(v.yDomain.value.lo)) &&
              (exists i :: 0 <= i < |v.rows| && v.rows[i].lifeExpectancy == Some(v.yDomain.value.hi))
  {
    var v := OverviewOf(data, status, years);
    OverviewSteps(data, status, years);
    LifeExpectancyExtent(v.rows);
  }

  /** Proof aid: the body of `OverviewOf` unfolded, one field per step of the chain. It
      restates the definition so that other proofs need not unfold it themselves. */
  lemma OverviewSteps(data: seq<Row>, status: string, years: YearRange)
    ensures var v := OverviewOf(data, status, years);
            v.countries == CountryList(data, status) &&
            v.rows == OverviewRows(data, v.countries, years) &&
            v.groups == GroupByCountry(v.rows) &&
            v.yDomain == Extent(v.rows, LifeExpectancy) &&
            v.labels == Labels(v.groups) &&
            v.annotations == Annotate(Take(v.groups, MaxCountries), years.last)
  {
  }

  /** Proof aid: the body of `OverviewOf` restated for callers that already know the
      countries, the rows and the groups. */
  lemma OverviewFrom(data: seq<Row>, status: string, years: YearRange,
                     cl: seq<string>, rows: seq<Row>, gs: seq<Group>)
    requires CountryList(data, status) == cl
    requires OverviewRows(data, cl, years) == rows
    requires GroupByCountry(rows) == gs
    ensures forall i :: 0 <= i < |gs| ==> gs[i].values != []
    ensures OverviewOf(data, status, years) ==
              OverviewView(cl, rows, gs, Extent(rows, LifeExpectancy), Labels(gs),
                           Annotate(Take(gs, MaxCountries), years.last))
  {
  }

  /** Rendering the annotations throws exactly when some drawn country has no row for
      the last year of the range. */
  lemma OverviewAnnotations(data: seq<Row>, status: string, years: YearRange)
    ensures var v := OverviewOf(data, status, years);
            v.annotations.Ok? <==>
              forall i :: 0 <= i < |v.groups| ==> exists r :: r in v.groups[i].values && r.year == years.last
  {
    var v := OverviewOf(data, status, years);
    assert Take(v.groups, MaxCountries) == v.groups;
    AnnotateSucceeds(v.groups, years.last);
  }

  /** If every row is of country `c` and passes the status filter, `c` is the only
      country listed. */
  lemma SingleCountryList(data: seq<Row>, status: string, c: string)
    requires data != []
    requires forall r :: r in data ==> r.country == c && StatusMatches(status, r)
    ensures CountryList(data, status) == [c]
  {
    FilterAll(data, MatchesStatus(status));
    var sc := StatusCountries(data, status);
    assert sc == Countries(data);
    DistinctSingle(sc, c);
  }

  /** Rows of one country, all inside the range, all survive the row filter. */
  lemma SingleCountryRows(data: seq<Row>, years: YearRange, c: string)
    requires forall r :: r in data ==> r.country == c && years.first <= r.year <= years.last
    ensures OverviewRows(data, [c], years) == data
  {
    FilterAll(data, InOverview([c], years));
  }

  /** Rows of one country form one group holding all of them. */
  lemma SingleCountryGroup(rows: seq<Row>, c: string)
    requires rows != []
    requires forall r :: r in rows ==> r.country == c
    ensures GroupByCountry(rows) == [Group(c, rows)]
  {
    var gs := GroupByCountry(rows);
    DistinctSingle(Countries(rows), c);
    assert |gs| == 1 && gs[0].key == c by { assert Keys(gs) == [c]; }
    FilterAll(rows, HasCountry(c));
  }

  lemma SingleLabel(g: Group)
    requires g.values != []
    ensures Labels([g]) == [Label(g.key, g.values[|g.values| - 1])]
  {
    assert Labels([g])[0] == Label(g.key, g.values[|g.values| - 1]);
  }

  /** Rows of one country, all passing the status filter and inside the range: the
      overview shows that one country and draws all the rows as one series. */
  lemma SingleCountry(data: seq<Row>, status: string, years: YearRange, c: string)
    requires data != []
    requires forall r :: r in data ==> r.country == c && StatusMatches(status, r)
    requires forall r :: r in data ==> years.first <= r.year <= years.last
    ensures var v := OverviewOf(data, status, years);
            v.countries == [c] && v.rows == data && v.groups == [Group(c, data)] &&
            v.labels == [Label(c, data[|data| - 1])]
  {
    SingleCountryList(data, status, c);
    SingleCountryRows(data, years, c);
    SingleCountryGroup(data, c);
    var gs := [Group(c, data)];
    OverviewFrom(data, status, years, [c], data, gs);
    SingleLabel(Group(c, data));
  }

  /** Two developed rows of one country at both ends of the default range, life
      expectancy 70 and then 80, give one two-point series, the tight domain [70, 80]
      and a callout at the 2015 row. */
  lemma OverviewEndToEnd(a0: Row, a1: Row, c: string)
    requires a0.country == c && a1.country == c && a0.status == "Developed" && a1.status == "Developed"
    requires a0.year == 2000 && a1.year == 2015
    requires a0.lifeExpectancy == Some(70.0) && a1.lifeExpectancy == Some(80.0)
    ensures var v := OverviewOf([a0, a1], "Developed", YearRange(2000, 2015));
            v.countries == [c] && v.groups == [Group(c, [a0, a1])] &&
            v.yDomain == Some(Bounds(70.0, 80.0)) && v.labels == [Label(c, a1)] &&
            v.annotations == Ok([Annotation(c, a1)])
  {
    var data, years := [a0, a1], YearRange(2000, 2015);
    SingleCountry(data, "Developed", years, c);
    SingleCountryAnnotations(data, "Developed", years, c);
    OverviewFrom(data, "Developed", years, [c], data, [Group(c, data)]);
    TwoPointExtent(a0, a1);
    TwoPointAnnotation(a0, a1, c);
  }

  lemma TwoPointExtent(a0: Row, a1: Row)
    requires a0.lifeExpectancy == Some(70.0) && a1.lifeExpectancy == Some(80.0)
    ensures Extent([a0, a1], LifeExpectancy) == Some(Bounds(70.0, 80.0))
  {
    assert [a0, a1][..1] == [a0];
    assert [a0][..0] == [];
  }

  lemma TwoPointAnnotation(a0: Row, a1: Row, c: string)
    requires a0.year == 2000 && a1.year == 2015
    ensures Annotate([Group(c, [a0, a1])], 2015) == Ok([Annotation(c, a1)])
  {
    var gs := [Group(c, [a0, a1])];
    assert FindYear([a0, a1], 2015) == Some(a1) by {
      assert [a0, a1][1..] == [a1];
    }
    assert gs[1..] == [];
    assert Annotate([], 2015) == Ok([]);
    assert [Annotation(c, a1)] + [] == [Annotation(c, a1)];
  }

  /** Rows of one country listed out of year order: the line's end label sits on the
      row that comes last in the dataset, of 2000, not on the latest year, 2015. */
  lemma LabelNotLatestYear(late: Row, early: Row, c: string)
    requires late.country == c && early.country == c && late.status == "Developed" && early.status == "Developed"
    requires late.year == 2015 && early.year == 2000
    ensures var v := OverviewOf([late, early], "Developed", YearRange(2000, 2015));
            v.labels == [Label(c, early)] && late in v.groups[0].values
  {
    SingleCountry([late, early], "Developed", YearRange(2000, 2015), c);
  }

  /** A drawn country without a row for the last year of the range makes the overview
      throw when it builds that country's callout. */
  lemma MissingEndYearThrows(data: seq<Row>, status: string, years: YearRange, c: string)
    requires data != []
    requires forall r :: r in data ==> r.country == c && StatusMatches(status, r)
    requires forall r :: r in data ==> years.first <= r.year < years.last
    ensures OverviewOf(data, status, years).annotations == Err(c)
  {
    SingleCountryAnnotations(data, status, years, c);
    var gs := [Group(c, data)];
    assert FindYear(data, years.last) == None;
    assert gs[0].values == data;
  }

  /** With one country drawn, the callouts are those of its one group. */
  lemma SingleCountryAnnotations(data: seq<Row>, status: string, years: YearRange, c: string)
    requires data != []
    requires forall r :: r in data ==> r.country == c && StatusMatches(status, r)
    requires forall r :: r in data ==> years.first <= r.year <= years.last
    ensures OverviewOf(data, status, years).annotations == Annotate([Group(c, data)], years.last)
  {
    var gs := [Group(c, data)];
    SingleCountryList(data, status, c);
    SingleCountryRows(data, years, c);
    SingleCountryGroup(data, c);
    OverviewFrom(data, status, years, [c], data, gs);
    assert Take(gs, MaxCountries) == gs;
  }
}
