# Life-Expectancy narrative visualisation: a Dafny model of `script.js`

The modelled program is a browser page that loads a table of per-country, per-year
health indicators and shows it as a sequence of chart scenes. The user steps through
the scenes with "prev" and "next" buttons and filters the overview with a
development-status drop-down. This project models the program's logic and proves
properties of it. The drawing itself is out of scope.

- **Overview derivation** (`renderOverview`). It builds:
  - the list of the first five distinct countries of the selected status;
  - the rows of those countries inside the year range;
  - their grouping by country, with d3.groups semantics;
  - the y-domain, the tight extent of the life expectancies;
  - the end label of each line;
  - the end-year callouts.
- **Scatter derivations** (`renderGDPImpact`, `renderUserExplore`). Each keeps the rows
  with `metric >= 0 && life_expectancy > 0`, with alcohol or HIV/AIDS as the metric. It
  then takes the extent of each axis over the kept rows.
- **Global state and handlers**. These are the current scene, the loaded dataset and the
  `parameters` object. The handlers are `renderScene`, the load continuation, the status
  drop-down and the prev/next buttons. They are all modelled as the class `Scenes.App`,
  whose fields these handlers update.

Files:

| file | contents |
|---|---|
| `wrappers.dfy` | `Option` and `Result` |
| `seqs.dfy` | sequence building blocks and their lemmas (`Array.filter`, `[...new Set(s)]`, `slice(0, n)`, first occurrence, subsequence) |
| `records.dfy` | the typed row, its metric columns (NaN is `None`), `d3.extent` |
| `overview.dfy` | the derivation chain of the overview and its properties |
| `scatter.dfy` | the two scatter scenes |
| `scenes.dfy` | the global state, the scene dispatch and the event handlers |

How the model represents the program:

- **Numbers.** `d3.csv` yields every cell as a string, and the unary `+` coercion turns
  non-numeric text such as `"NA"` into NaN (an empty cell becomes 0). NaN is modelled as
  `None`. Every JavaScript comparison involving NaN is false, so `NonNegative` (`>= 0`)
  and `Positive` (`> 0`) are false on `None`. `d3.extent` skips NaN values, and it returns
  `[undefined, undefined]` when nothing is left, which is modelled as `None`. Metrics are
  modelled as exact reals, not IEEE doubles.
- **`d3.groups`.** It is modelled as the fold d3 performs: each row in turn is appended to
  the group of its country, or opens a new group at the end (`Overview.AddRow`). The
  lemmas show that this fold gives the distinct countries in first-appearance order, and
  that each group holds exactly its country's rows in row order.
- **The callouts.** `values.find(...)` returns `undefined` when a drawn country has no
  row for `yearRange[1]`, and `lastPoint.life_expectancy` then throws a TypeError. This is
  modelled as `Err(country)`, for the first such group in group order.
- **Scenes 1 and 2.** `renderScene` calls `renderAlcoholImpact` and `renderHIVImpact`
  (script.js:46, 48). No function by either name is defined; the scatter scenes are
  defined as `renderGDPImpact` and `renderUserExplore`. Scenes 1 and 2 are therefore
  modelled as a `ReferenceError` screen, shown after the page has been cleared. The
  scatter derivations are modelled on their own (`Scatter.GdpImpact`,
  `Scatter.UserExplore`), since nothing reachable calls them.
- **The unclosed brace.** `renderOverview` has no closing brace, so the braces of
  `script.js` do not balance: as written the file does not parse. The model follows its
  evident structure. The overview ends after the annotation group (script.js:169), and the
  scatter functions and the button handlers are top-level.
- **`selectedCountries` can be stale.** It is recomputed only when the overview renders
  (script.js:72). A status change while scene 1 or 2 is shown leaves it as it was, so
  `Scenes.App.Valid` ties it to the dataset and status only on scene 0.
- **The y-domain has no padding.** The y-domain of the overview is the tight extent
  (script.js:88), so life expectancies 70 and 80 give [70, 80]
  (`Overview.OverviewEndToEnd`).
- **No handler sets `yearRange`.** It keeps its initial value `[2000, 2015]`.

## Model

| member | source | states |
|---|---|---|
| Seqs.Filter | script.js:69 | the result is no longer than the input and holds exactly the elements of the input that pass the predicate |
| Seqs.FilterIsSubsequence | script.js:75-79 | a filter keeps the elements in their original order (the result is a subsequence of the input) |
| Seqs.FilterCount | script.js:75-79 | each kept element occurs as often as in the input, a dropped one not at all |
| Seqs.FilterLast | script.js:134-137 | the last element a filter keeps is the last element of the input that passes the predicate, and no later element passes it |
| Seqs.Distinct | script.js:68-70 | `[...new Set(s)]` has no duplicates and holds exactly the elements of `s` |
| Seqs.DistinctFirstSeen | script.js:68-70 | the distinct elements come in the order of their first occurrence in `s` |
| Seqs.Take | script.js:70 | `slice(0, n)` has length `min(n, |s|)` and is a prefix of `s` |
| Seqs.FilterAppend | script.js:75-79 | a filter splits over concatenation |
| Records.Extent | script.js:88 | `d3.extent` is `None` exactly when every value is NaN; otherwise `lo <= hi`, every non-NaN value lies in `[lo, hi]`, and both `lo` and `hi` are values of some row |
| Records.LifeExpectancyExtent | script.js:88 | the same for the life-expectancy column, stated on the rows themselves |
| Records.ExtentNonNegative | script.js:194-200 | over rows whose value is `>= 0` the extent starts at 0 or above |
| Records.ExtentPositive | script.js:203-206 | over rows whose value is `> 0` the extent starts above 0 |
| Overview.CountryList | script.js:68-70 | `countryList` has at most 5 entries and no duplicates, and each entry is the country of a row whose status passes the filter (`"all"` passes every row) |
| Overview.CountryListFirstSeen | script.js:68-70 | the entries are in first-seen row order, and they are the FIRST five: a matching country left out means the list is full and every listed country was seen before it |
| Overview.OverviewRows | script.js:75-79 | `filtered` holds exactly the rows of a listed country with `yearRange[0] <= year <= yearRange[1]`, as a subsequence of the dataset |
| Overview.OverviewRowsCount | script.js:75-79 | each kept row occurs in `filtered` as often as in the dataset |
| Overview.AddRow | script.js:81 | one grouping step appends the row to the group of its country, or opens a new group for it at the end; every other group is unchanged |
| Overview.UniqueKeysOf | script.js:81 | duplicate-free keys mean no two groups share a key |
| Overview.GroupByCountry | script.js:81 | the group keys are the distinct countries in first-appearance order, each group holds exactly its country's rows in row order, and no group is empty |
| Overview.GroupsCover | script.js:81 | every row lies in the group keyed by its own country |
| Overview.GroupsDisjoint | script.js:81 | a row of a group belongs to the rows and has the group's country, and it lies in no other group |
| Overview.GroupKeysFirstSeen | script.js:81 | the keys are distinct, are countries of the rows and come in first-seen order |
| Overview.GroupCountBound | script.js:75-81 | there are no more groups than listed countries |
| Overview.Labels | script.js:134-137 | one label per group, carrying the group's country and placed at the group's last row |
| Overview.LabelIsLastRow | script.js:130-137 | the end label of a line is the last row of that country in dataset order, whatever its year |
| Overview.FindYear | script.js:146 | `find` yields nothing exactly when no row has the year, and otherwise the first row that has it |
| Overview.Annotate | script.js:145-157 | the callouts are built exactly when every group has a row of the end year; each then has the country as title and the first end-year row as its point |
| Overview.AnnotateFailsAtFirstMissing | script.js:145-150 | the error names the first group in group order with no end-year row |
| Overview.AnnotateSucceeds | script.js:145-150 | the callouts are built exactly when every group holds a row of the end year |
| Overview.OverviewOf | script.js:68-157 | the overview draws at most as many lines as listed countries, at most five, with one label per line and, when built, one callout per line |
| Overview.OverviewCountries | script.js:68-72 | the countries of the overview are `countryList` |
| Overview.OverviewYDomain | script.js:87-90 | the y-domain is absent exactly when every drawn life expectancy is NaN, and otherwise bounds every one and is attained at both ends |
| Overview.OverviewAnnotations | script.js:145-150 | the overview's callouts throw exactly when some drawn country has no row for the last year of the range |
| Overview.SingleCountryList | script.js:68-70 | when every row is of country `c` and passes the status filter, the list is `[c]` |
| Overview.SingleCountryRows | script.js:75-79 | rows of one listed country inside the range all survive the row filter |
| Overview.SingleCountryGroup | script.js:81 | rows of one country form one group holding all of them |
| Overview.SingleCountry | script.js:68-137 | a one-country dataset whose every row passes the status filter and lies inside the year range gives one line drawing all its rows, labelled at its last row |
| Overview.SingleCountryAnnotations | script.js:145-146 | with one country drawn, the callouts are those of its one group |
| Overview.OverviewEndToEnd | script.js:68-157 | two developed rows of one country, 2000 at 70 and 2015 at 80: one two-point line, the tight domain [70, 80], the label and the callout at the 2015 row |
| Overview.LabelNotLatestYear | script.js:134-137 | with the 2015 row listed before the 2000 row, the label sits on the 2000 row |
| Overview.MissingEndYearThrows | script.js:145-150 | in a one-country dataset whose rows all lie in `[yearRange[0], yearRange[1])`, the callouts throw, naming that country (with several countries, the first in group order is named: `AnnotateFailsAtFirstMissing`) |
| Scatter.ScatterOf | script.js:194-206 | the points are exactly the plottable rows (`metric >= 0 && life_expectancy > 0`, false on NaN), in dataset order; each domain exists exactly when there is a point |
| Scatter.ScatterCount | script.js:194-206 | each plottable row occurs among the points as often as in the dataset, and any other row not at all |
| Scatter.ScatterXDomain | script.js:194-200 | the x-domain bounds the metric of every point, is attained at both ends and starts at 0 or above |
| Scatter.ScatterYDomain | script.js:194-206 | the y-domain bounds the life expectancy of every point, is attained at both ends and starts above 0 |
| Scatter.GdpImpact | script.js:194 | `renderGDPImpact` keeps exactly the rows with `alcohol >= 0 && life_expectancy > 0`, in dataset order |
| Scatter.GdpImpactCount | script.js:194 | each row `renderGDPImpact` keeps occurs as often as in the dataset |
| Scatter.UserExplore | script.js:278 | `renderUserExplore` keeps exactly the rows with `hiv_aids >= 0 && life_expectancy > 0`, in dataset order |
| Scatter.UserExploreCount | script.js:278 | each row `renderUserExplore` keeps occurs as often as in the dataset |
| Scenes.Dispatch | script.js:43-49 | a handler runs exactly for scenes 0, 1 and 2: the overview exactly for scene 0, `renderAlcoholImpact` exactly for scene 1 and `renderHIVImpact` exactly for scene 2 |
| Scenes.SceneScreen | script.js:34-50 | without data only the loading message shows; with data scene 0 draws exactly `OverviewOf` the dataset, status and year range (whose countries are `countryList`), scene 1 ends in a ReferenceError for `renderAlcoholImpact` and scene 2 in one for `renderHIVImpact`, and any other scene leaves the page blank |
| Scenes.App.constructor | script.js:2-8 | the initial state: scene 0, no data, status "Developed", years [2000, 2015], no selected countries |
| Scenes.App.RenderOverview | script.js:68-73 | `selectedCountries` becomes `countryList`, `selectedMetric` becomes `life_expectancy`, and the overview is drawn |
| Scenes.App.RenderScene | script.js:34-50 | records the render; the screen is that of the scene; only scene 0 with data writes the selected countries and metric; the invariant is kept |
| Scenes.App.Load | script.js:21-22 | the dataset is stored and the current scene rendered, keeping the invariant; on scene 0 the selected countries become `countryList` and the metric `life_expectancy`, elsewhere both are unchanged |
| Scenes.App.ChangeStatus | script.js:28-31 | the status is stored and the current scene re-rendered; on scene 0 with data the selected countries become the new `countryList` and the metric `life_expectancy`; off the overview both are left stale |
| Scenes.App.Prev | script.js:346-351 | the scene steps back by one and re-renders, except at 0, where nothing changes and nothing renders; landing on scene 0 with data sets the selected countries to `countryList` and the metric to `life_expectancy`, otherwise both are unchanged |
| Scenes.App.Next | script.js:353-358 | the scene steps forward by one and re-renders, except at 2, where nothing changes and nothing renders; the selected countries and metric are left as they were, since scene 0 is never the target |
| Scenes.StatusRoundTrip | script.js:28-31 | from any reachable state, switching the status away and back restores the status and the selected countries |
| Scenes.NavigationScenario | script.js:346-358 | from a fresh page, prev, next, next, next saturates at 0 and at 2, ends on scene 2 and, with no data yet, shows the loading message |

## Left out

- Drawing: SVG and DOM work (`d3.select`, axes, `d3.line`, colour scales, circles, titles, narrative HTML). It is presentation over a library outside the model.
- `.nice()` rounding of the domains, pixel ranges and margin arithmetic: floating-point presentation details.
- The d3-annotation callout objects beyond their title and point. Also the `toFixed(1)` label text: number formatting.
- CSV loading (script.js:11-25): asynchronous I/O. The dataset is an input of `Scenes.App.Load`, already typed. A NaN year is not modelled; years are integers.
- Registering the listeners (script.js:28, 346, 353). The handlers are the methods of `Scenes.App`.
- The static annotations of the scatter scenes (script.js:243-258 and 326-342), which are fixed data-space anchors.
- The scene functions behind scenes 1 and 2 when they are reached through `renderScene`: the names called there are not defined, so the model stops at the ReferenceError.
- Floating point: metrics are exact reals, so rounding and infinities are not modelled.
- Empty cells: `+""` is 0 in JavaScript, so an empty metric cell is a present 0, not NaN; the typed dataset given to `Scenes.App.Load` is expected to carry `Some(0)` for it (an empty alcohol cell then passes `>= 0`).
