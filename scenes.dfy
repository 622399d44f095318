/** The script's global state and its event handlers: `currentScene`, `dataGlobal`
    and `parameters` (script.js:2-8), the load continuation (script.js:21-22), the
    status drop-down (script.js:28-31), `renderScene` (script.js:34-50), the state
    `renderOverview` writes (script.js:72-73) and the prev/next buttons
    (script.js:346-358). */
module Scenes {
  import opened Wrappers
  import opened Records
  import opened Overview

  /** The last scene index `next` may reach (script.js:354). */
  const LastScene: int := 2

  /** The function each branch of `renderScene` calls, by the name it calls it. */
  datatype Handler = OverviewScene | AlcoholScene | HivScene {
    function Name(): string {
      match this
      case OverviewScene => "renderOverview"
      case AlcoholScene => "renderAlcoholImpact"
      case HivScene => "renderHIVImpact"
    }
  }

  /** The `if` chain of script.js:43-49 on `scene === 0/1/2`. */
  function Dispatch(scene: int): (h: Option<Handler>)
    ensures h.Some? <==> 0 <= scene <= LastScene
    ensures h == Some(OverviewScene) <==> scene == 0
    ensures h == Some(AlcoholScene) <==> scene == 1
    ensures h == Some(HivScene) <==> scene == 2
  {
    if scene == 0 then Some(OverviewScene)
    else if scene == 1 then Some(AlcoholScene)
    else if scene == 2 then Some(HivScene)
    else None
  }

  /** What the page shows after a render. */
  datatype Screen =
    | Blank                          // `#viz` and `#narrative` emptied, nothing drawn
    | LoadingMessage                 // "loading data..." in `#narrative`
    | OverviewChart(view: OverviewView)
    | ReferenceError(name: string)   // the handler called is not a defined function

  /** The screen `renderScene(scene)` leaves behind. Scenes 1 and 2 call names the
      script never defines (the scatter scenes are defined as `renderGDPImpact` and
      `renderUserExplore`), so they end in a ReferenceError after the page is cleared. */
  function SceneScreen(data: Option<seq<Row>>, status: string, years: YearRange, scene: int): (s: Screen)
    ensures data.None? ==> s == LoadingMessage
    ensures data.Some? ==> (s.OverviewChart? <==> scene == 0)
    ensures data.Some? ==> (s.ReferenceError? <==> scene == 1 || scene == 2)
    ensures data.Some? ==> (s == Blank <==> !(0 <= scene <= LastScene))
    ensures s.OverviewChart? ==> s.view.countries == CountryList(data.value, status)
    ensures data.Some? && scene == 0 ==> s == OverviewChart(OverviewOf(data.value, status, years))
    ensures data.Some? && scene == 1 ==> s == ReferenceError("renderAlcoholImpact")
    ensures data.Some? && scene == 2 ==> s == ReferenceError("renderHIVImpact")
  {
    if data.None? then LoadingMessage
    else match Dispatch(scene)
      case None => Blank
      case Some(OverviewScene) =>
        OverviewCountries(data.value, status, years);
        OverviewChart(OverviewOf(data.value, status, years))
      case Some(h) => ReferenceError(h.Name())
  }

  class App {
    var currentScene: int
    var data: Option<seq<Row>>          // `dataGlobal`; None while the CSV is loading
    var selectedStatus: string
    var yearRange: YearRange
    var selectedCountries: seq<string>
    var selectedMetric: Option<string>  // absent until the overview first runs
    var screen: Screen
    ghost var renders: seq<int>         // the argument of every `renderScene` call, in order

    /** The scene index stays in range, and on the overview, once the data is there,
        the selected countries are those of the selected status. On the other scenes
        they may be stale: only the overview recomputes them. */
    ghost predicate Valid()
      reads this
    {
      0 <= currentScene <= LastScene &&
      (currentScene == 0 && data.Some? ==> selectedCountries == CountryList(data.value, selectedStatus))
    }

    constructor ()
      ensures Valid()
      ensures currentScene == 0 && data == None
      ensures selectedStatus == "Developed" && yearRange == YearRange(2000, 2015)
      ensures selectedCountries == [] && selectedMetric == None
      ensures screen == Blank && renders == []
    {
      currentScene := 0;
      data := None;
      selectedStatus := "Developed";
      yearRange := YearRange(2000, 2015);
      selectedCountries := [];
      selectedMetric := None;
      screen := Blank;
      renders := [];
    }

    /** The parameter writes of `renderOverview` (script.js:72-73) and its chart. */
    method RenderOverview()
      requires data.Some?
      modifies this`selectedCountries, this`selectedMetric, this`screen
      ensures selectedCountries == CountryList(old(data).value, old(selectedStatus))
      ensures selectedMetric == Some("life_expectancy")
      ensures screen == OverviewChart(OverviewOf(old(data).value, old(selectedStatus), old(yearRange)))
    {
      selectedCountries := CountryList(data.value, selectedStatus);
      selectedMetric := Some("life_expectancy");
      screen := OverviewChart(OverviewOf(data.value, selectedStatus, yearRange));
    }

    /** `renderScene(scene)`: clear the page; without data only show the loading
        message; otherwise run the handler of the scene, if it has one. */
    method RenderScene(scene: int)
      requires 0 <= currentScene <= LastScene
      modifies this`selectedCountries, this`selectedMetric, this`screen, this`renders
      ensures screen == SceneScreen(data, selectedStatus, yearRange, scene)
      ensures renders == old(renders) + [scene]
      ensures selectedCountries ==
                if data.Some? && scene == 0 then CountryList(data.value, selectedStatus)
                else old(selectedCountries)
      ensures selectedMetric ==
                if data.Some? && scene == 0 then Some("life_expectancy") else old(selectedMetric)
      ensures old(Valid()) || scene == currentScene ==> Valid()
    {
      screen := Blank;
      renders := renders + [scene];
      if data.None? {
        screen := LoadingMessage;
        return;
      }
      var h := Dispatch(scene);
      if h.Some? {
        match h.value
        case OverviewScene => RenderOverview();
        case _ => screen := ReferenceError(h.value.Name());
      }
    }

    /** The CSV promise resolves: store the rows and render the current scene. */
    method Load(rows: seq<Row>)
      requires Valid() && data.None?
      modifies this
      ensures Valid()
      ensures data == Some(rows)
      ensures currentScene == old(currentScene) && selectedStatus == old(selectedStatus)
      ensures yearRange == old(yearRange)
      ensures renders == old(renders) + [currentScene]
      ensures screen == SceneScreen(data, selectedStatus, yearRange, currentScene)
      ensures selectedCountries ==
                if data.Some? && currentScene == 0 then CountryList(data.value, selectedStatus)
                else old(selectedCountries)
      ensures selectedMetric ==
                if data.Some? && currentScene == 0 then Some("life_expectancy") else old(selectedMetric)
    {
      data := Some(rows);
      RenderScene(currentScene);
    }

    /** The status drop-down changes: store the value and re-render the current scene.
        Off the overview the selected countries are left as they were. */
    method ChangeStatus(value: string)
      requires Valid()
      modifies this
      ensures Valid()
      ensures selectedStatus == value
      ensures currentScene == old(currentScene) && data == old(data) && yearRange == old(yearRange)
      ensures renders == old(renders) + [currentScene]
      ensures screen == SceneScreen(data, value, yearRange, currentScene)
      ensures selectedCountries ==
                if data.Some? && currentScene == 0 then CountryList(data.value, selectedStatus)
                else old(selectedCountries)
      ensures selectedMetric ==
                if data.Some? && currentScene == 0 then Some("life_expectancy") else old(selectedMetric)
    {
      selectedStatus := value;
      RenderScene(currentScene);
    }

    /** The "prev" button: step back and re-render, unless already on scene 0. */
    method Prev()
      requires Valid()
      modifies this
      ensures Valid()
      ensures currentScene == if old(currentScene) > 0 then old(currentScene) - 1 else old(currentScene)
      ensures data == old(data) && selectedStatus == old(selectedStatus) && yearRange == old(yearRange)
      ensures old(currentScene) == 0 ==>
                renders == old(renders) && screen == old(screen) &&
                selectedCountries == old(selectedCountries) && selectedMetric == old(selectedMetric)
      ensures old(currentScene) > 0 ==>
                renders == old(renders) + [currentScene] &&
                screen == SceneScreen(data, selectedStatus, yearRange, currentScene)
      ensures old(currentScene) > 0 ==>
                selectedCountries ==
                  if data.Some? && currentScene == 0 then CountryList(data.value, selectedStatus)
                  else old(selectedCountries)
      ensures old(currentScene) > 0 ==>
                selectedMetric ==
                  if data.Some? && currentScene == 0 then Some("life_expectancy") else old(selectedMetric)
    {
      if currentScene > 0 {
        currentScene := currentScene - 1;
        RenderScene(currentScene);
      }
    }

    /** The "next" button: step forward and re-render, unless already on the last scene. */
    method Next()
      requires Valid()
      modifies this
      ensures Valid()
      ensures currentScene == if old(currentScene) < LastScene then old(currentScene) + 1 else old(currentScene)
      ensures data == old(data) && selectedStatus == old(selectedStatus) && yearRange == old(yearRange)
      ensures old(currentScene) == LastScene ==> renders == old(renders) && screen == old(screen)
      ensures old(currentScene) < LastScene ==>
                renders == old(renders) + [currentScene] &&
                screen == SceneScreen(data, selectedStatus, yearRange, currentScene)
      // Next never lands on scene 0, so the selection is never rewritten.
      ensures selectedCountries == old(selectedCountries) && selectedMetric == old(selectedMetric)
    {
      if currentScene < LastScene {
        currentScene := currentScene + 1;
        RenderScene(currentScene);
      }
    }
  }

  /** Switching the status away and back restores the selected countries: on the
      overview with data they are a function of the dataset and the status, and
      elsewhere neither change touches them. */
  method StatusRoundTrip(app: App, other: string)
    requires app.Valid()
    modifies app
    ensures app.selectedStatus == old(app.selectedStatus)
    ensures app.selectedCountries == old(app.selectedCountries)
  {
    var original := app.selectedStatus;
    app.ChangeStatus(other);
    app.ChangeStatus(original);
  }

  /** From a fresh page, navigation saturates at both ends and renders only on a move:
      prev, next, next, next ends on scene 2 having rendered scenes 1 and 2 once each. */
  method NavigationScenario() returns (scene: int, shown: Screen)
    ensures scene == LastScene && shown == LoadingMessage
  {
    var app := new App();
    app.Prev();
    assert app.currentScene == 0 && app.renders == [];
    app.Next();
    app.Next();
    assert app.currentScene == 2 && app.renders == [1, 2];
    app.Next();
    assert app.currentScene == 2 && app.renders == [1, 2];
    scene, shown := app.currentScene, app.screen;
  }
}
