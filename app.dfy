/** The dashboard shell (src/App.tsx): five state cells, the effect that
    loads the stations once, the effect that fetches the weather of the
    selected station, and the lookup of the station to display. Network
    completions arrive as method calls, one at a time. */
module App {
  import opened Types

  const WeatherUrlPrefix: string := "http://localhost:8000/api/get-weather/"
  const StationsError: string := "Error loading stations"
  const WeatherError: string := "Error loading weather data"

  /** The index of the first station with the given id. */
  function FindIndex(stations: seq<Station>, id: string): (r: Option<nat>)
    ensures r.Some? ==> r.value < |stations| && stations[r.value].id == id
    ensures r.Some? ==> forall j :: 0 <= j < r.value ==> stations[j].id != id
    ensures r.None? ==> forall j :: 0 <= j < |stations| ==> stations[j].id != id
  {
    if stations == [] then None
    else if stations[0].id == id then Some(0)
    else
      match FindIndex(stations[1..], id)
      case None => None
      case Some(k) => Some(k + 1)
  }

  /** `stations.find(s => s.id === selectedStationId)`: the first station
      whose id is the selected one; none when nothing is selected or no
      station has that id. Stations are records with a string `id`, as the
      component's state is declared, so an undefined selection matches none
      of them. */
  function FindStation(stations: seq<Station>, selected: Option<string>): (r: Option<Station>)
    ensures selected.None? ==> r.None?
    ensures r.None? && selected.Some? ==> forall j :: 0 <= j < |stations| ==> stations[j].id != selected.value
    ensures r.Some? ==> selected.Some? && r.value.id == selected.value
    ensures r.Some? ==> exists i :: 0 <= i < |stations| && stations[i] == r.value &&
                          forall j :: 0 <= j < i ==> stations[j].id != selected.value
  {
    match selected
    case None => None
    case Some(id) =>
      match FindIndex(stations, id)
      case None => None
      case Some(i) => Some(stations[i])
  }

  /** The state of the `App` component. */
  class Dashboard {
    var stations: seq<Station>
    var selectedStationId: Option<string>
    var weatherData: Option<WeatherData>
    var loading: bool
    var error: Option<string>
    /** Weather requests issued and not yet settled. The component keeps no
        such count; the model does, to say when a completion can arrive. */
    ghost var pending: nat

    constructor ()
      ensures stations == [] && selectedStationId == None && weatherData == None
      ensures !loading && error == None && pending == 0
      ensures Valid()
    {
      stations, selectedStationId, weatherData := [], None, None;
      loading, error, pending := false, None, 0;
    }

    /** Every event keeps this: while loading, a weather request is
        outstanding. */
    ghost predicate Valid()
      reads this
    {
      loading ==> pending > 0
    }

    /** The station in the detail panel: a station of the list whose id is
        the selected one, and only absent when no station has that id. */
    function DisplayedStation(): (r: Option<Station>)
      reads this
      ensures r.Some? ==> selectedStationId.Some? && r.value in stations && r.value.id == selectedStationId.value
      ensures r.None? && selectedStationId.Some? ==>
                forall j :: 0 <= j < |stations| ==> stations[j].id != selectedStationId.value
    {
      FindStation(stations, selectedStationId)
    }

    /** The station request answered: its body becomes the station list,
        whole. */
    method StationsLoaded(body: seq<Station>)
      requires Valid()
      modifies this
      ensures Valid()
      ensures stations == body
      ensures selectedStationId == old(selectedStationId) && weatherData == old(weatherData)
      ensures loading == old(loading) && error == old(error) && pending == old(pending)
    {
      stations := body;
    }

    /** The station request failed (no response, a non-ok status or a body
        that is not JSON): only the error message is set. */
    method StationsFailed()
      requires Valid()
      modifies this
      ensures Valid()
      ensures error == Some(StationsError)
      ensures stations == old(stations) && selectedStationId == old(selectedStationId)
      ensures weatherData == old(weatherData) && loading == old(loading) && pending == old(pending)
    {
      error := Some(StationsError);
    }

    /** The body of the weather effect: nothing for an undefined or empty
        id; otherwise loading is set, the error cleared and a request for
        the raw id issued. The previous weather data stays. */
    method WeatherEffect() returns (request: Option<string>)
      requires Valid()
      modifies this
      ensures Valid()
      ensures stations == old(stations) && selectedStationId == old(selectedStationId)
      ensures weatherData == old(weatherData)
      ensures request.Some? <==> Truthy(selectedStationId)
      ensures request.Some? ==> request.value == WeatherUrlPrefix + selectedStationId.value
      ensures request.Some? ==> loading && error == None && pending == old(pending) + 1
      ensures request.None? ==> loading == old(loading) && error == old(error) && pending == old(pending)
    {
      if !Truthy(selectedStationId) {
        return None;
      }
      loading := true;
      error := None;
      pending := pending + 1;
      request := Some(WeatherUrlPrefix + selectedStationId.value);
    }

    /** `setSelectedStationId`: the weather effect depends on the selected
        id alone, so it runs only when the id changes value. Whether the id
        names a known station is not checked. */
    method Select(id: Option<string>) returns (request: Option<string>)
      requires Valid()
      modifies this
      ensures Valid()
      ensures selectedStationId == id
      ensures stations == old(stations) && weatherData == old(weatherData)
      ensures request.Some? <==> id != old(selectedStationId) && Truthy(id)
      ensures request.Some? ==> request.value == WeatherUrlPrefix + id.value
      ensures request.Some? ==> loading && error == None && pending == old(pending) + 1
      ensures request.None? ==> loading == old(loading) && error == old(error) && pending == old(pending)
    {
      var changed := id != selectedStationId;
      selectedStationId := id;
      if changed {
        request := WeatherEffect();
      } else {
        request := None;
      }
    }

    /** A weather request answered with a body: it replaces the weather
        data whole, then loading ends. The answer carries no id, so it is
        applied whichever request it belongs to. */
    method WeatherOk(body: WeatherData)
      requires pending > 0
      requires Valid()
      modifies this
      ensures Valid()
      ensures weatherData == Some(body) && !loading
      ensures stations == old(stations) && selectedStationId == old(selectedStationId)
      ensures error == old(error) && pending == old(pending) - 1
    {
      weatherData := Some(body);
      loading := false;
      pending := pending - 1;
    }

    /** A weather request failed (no response, a non-ok status or a body
        that is not JSON): the error is set, the previous weather data
        stays, then loading ends. */
    method WeatherFailed()
      requires pending > 0
      requires Valid()
      modifies this
      ensures Valid()
      ensures error == Some(WeatherError) && !loading
      ensures stations == old(stations) && selectedStationId == old(selectedStationId)
      ensures weatherData == old(weatherData) && pending == old(pending) - 1
    {
      error := Some(WeatherError);
      loading := false;
      pending := pending - 1;
    }
  }

  /** Two selections in a row, then the first request answers: its body is
      shown for the second station and loading has ended although the
      second request is still outstanding. */
  method LateResponseScenario(a: string, b: string, late: WeatherData) returns (d: Dashboard)
    requires a != "" && b != "" && a != b
    ensures d.selectedStationId == Some(b)
    ensures d.weatherData == Some(late) && !d.loading
    ensures d.pending == 1 && d.Valid()
  {
    d := new Dashboard();
    var first := d.Select(Some(a));
    var second := d.Select(Some(b));
    assert first == Some(WeatherUrlPrefix + a) && second == Some(WeatherUrlPrefix + b);
    d.WeatherOk(late);
  }

  /** Choosing the selected station again issues no request and leaves the
      status alone. */
  method ReselectScenario(a: string) returns (d: Dashboard)
    requires a != ""
    ensures d.selectedStationId == Some(a) && d.loading && d.pending == 1 && d.Valid()
  {
    d := new Dashboard();
    var first := d.Select(Some(a));
    var again := d.Select(Some(a));
    assert first.Some? && again.None?;
  }
}
