/** The upstream service helpers (src/services/api.ts): decoding the
    station rows and addressing the weather endpoint. The HTTP transport is
    not modelled: a response reaches these functions as a value. */
module Api {
  import opened Types
  import opened UriComponent
  import StationsPage

  /** One upstream row `[id, name, latitude, longitude]`. */
  type StationRow = (string, string, Number, Number)

  /** Why a request was rejected: no response at all, or a status outside
      2xx. Rejections reach the caller unchanged. */
  datatype HttpFailure = NetworkFailure | ErrorStatus(code: int)

  // ---------------------------------------------------------------------
  // getStations

  /** One row read positionally; `lastUpdate` is null. */
  function DecodeRow(row: StationRow): Station {
    Station(row.0, row.1, row.2, row.3, None, None)
  }

  /** The `map` over the rows: one station per row, in the same order, with
      id, name, latitude and longitude taken from positions 0 to 3. */
  function DecodeStations(rows: seq<StationRow>): (r: seq<Station>)
    ensures |r| == |rows|
    ensures forall i :: 0 <= i < |rows| ==>
              && r[i].id == rows[i].0 && r[i].name == rows[i].1
              && r[i].latitude == rows[i].2 && r[i].longitude == rows[i].3
              && r[i].lastUpdate == None && r[i].measurements == None
  {
    seq(|rows|, i requires 0 <= i < |rows| => DecodeRow(rows[i]))
  }

  /** The row a station was read from. */
  function RowOf(st: Station): StationRow {
    (st.id, st.name, st.latitude, st.longitude)
  }

  /** Decoding loses nothing of a row: reading the four fields back off
      the stations gives the upstream rows again. */
  lemma DecodeStationsRoundTrip(rows: seq<StationRow>)
    ensures seq(|rows|, i requires 0 <= i < |rows| => RowOf(DecodeStations(rows)[i])) == rows
  {
  }

  /** Decoding works row by row: it distributes over concatenation. */
  lemma DecodeStationsAppend(a: seq<StationRow>, b: seq<StationRow>)
    ensures DecodeStations(a + b) == DecodeStations(a) + DecodeStations(b)
  {
  }

  /** No decoded station has a `lastUpdate`, so the station table counts
      every one of them as Offline and none as Active. */
  lemma DecodedStationsAreOffline(rows: seq<StationRow>)
    ensures StationsPage.ActiveCount(DecodeStations(rows)) == 0
    ensures StationsPage.OfflineCount(DecodeStations(rows)) == |rows|
  {
    StationsPage.NoneActive(DecodeStations(rows));
  }

  /** `getStations`: a rejected request propagates; a body is decoded. */
  function GetStations(response: Result<seq<StationRow>, HttpFailure>): (r: Result<seq<Station>, HttpFailure>)
    ensures r.Err? <==> response.Err?
    ensures response.Err? ==> r.error == response.error
    ensures response.Ok? ==> |r.value| == |response.value|
    ensures response.Ok? ==> r.value == DecodeStations(response.value)
  {
    match response
    case Err(e) => Err(e)
    case Ok(rows) => Ok(DecodeStations(rows))
  }

  // ---------------------------------------------------------------------
  // getWeatherData

  const Separator: string := " | "

  /** `stationParam`: the id, then " | ", then the name. */
  function StationKey(id: string, name: string): (k: string)
    ensures |k| == |id| + 3 + |name|
    ensures k[..|id|] == id && k[|id|..|id| + 3] == Separator && k[|id| + 3..] == name
  {
    id + Separator + name
  }

  /** The separator occurs in `k` at offset `j`. */
  predicate SeparatorAt(k: string, j: int) {
    0 <= j && j + 3 <= |k| && k[j..j + 3] == Separator
  }

  /** The first offset at or after `from` where the separator occurs. */
  function FindSeparator(k: string, from: nat): (r: Option<nat>)
    decreases |k| - from
    ensures r.Some? ==> from <= r.value && SeparatorAt(k, r.value)
    ensures r.Some? ==> forall j :: from <= j < r.value ==> !SeparatorAt(k, j)
    ensures r.None? ==> forall j :: from <= j ==> !SeparatorAt(k, j)
  {
    if |k| < from + 3 then None
    else if k[from..from + 3] == Separator then Some(from)
    else FindSeparator(k, from + 1)
  }

  /** Reads a key back into id and name at the first separator. */
  function SplitKey(k: string): Option<(string, string)> {
    match FindSeparator(k, 0)
    case None => None
    case Some(i) => Some((k[..i], k[i + 3..]))
  }

  /** For an id without `|` (upstream ids look like "TA00004") the key
      determines the id and the name. */
  lemma SplitStationKey(id: string, name: string)
    requires '|' !in id
    ensures SplitKey(StationKey(id, name)) == Some((id, name))
  {
    var k := StationKey(id, name);
    assert SeparatorAt(k, |id|);
    var i := FindSeparator(k, 0).value;
    assert k[i..i + 3] == Separator;
    assert i <= |id|;
    forall j | 0 <= j < |id|
      ensures !SeparatorAt(k, j)
    {
      if j + 1 < |id| {
        assert k[j + 1] == id[j + 1];
      } else {
        assert k[j + 1] == ' ';
      }
    }
    assert i == |id|;
  }

  /** Distinct (id, name) pairs with `|`-free ids give distinct keys. */
  lemma StationKeyInjective(id1: string, name1: string, id2: string, name2: string)
    requires '|' !in id1 && '|' !in id2
    requires StationKey(id1, name1) == StationKey(id2, name2)
    ensures id1 == id2 && name1 == name2
  {
    SplitStationKey(id1, name1);
    SplitStationKey(id2, name2);
  }

  /** Encoding the key encodes the id and the name separately and writes
      the separator as "%20%7C%20". */
  lemma EncodeStationKey(id: string, name: string)
    ensures EncodeURIComponent(StationKey(id, name))
              == EncodeURIComponent(id) + "%20%7C%20" + EncodeURIComponent(name)
  {
    EncodeAppend(id + Separator, name);
    EncodeAppend(id, Separator);
    EncodeSeparator();
  }

  const DataPath: string := "/data?station="

  /** The request path: the key, percent-encoded, as the `station` query
      parameter. Neither a space nor a `|` reaches the query string. */
  function RequestPath(id: string, name: string): (p: string)
    ensures ' ' !in p && '|' !in p
  {
    EncodedHasNoSpaceOrBar(StationKey(id, name));
    assert ' ' !in DataPath && '|' !in DataPath;
    DataPath + EncodeURIComponent(StationKey(id, name))
  }

  /** The path spells out the id and the name, each encoded on its own,
      with the separator sent as "%20%7C%20". */
  lemma RequestPathShape(id: string, name: string)
    ensures RequestPath(id, name)
              == DataPath + EncodeURIComponent(id) + "%20%7C%20" + EncodeURIComponent(name)
  {
    EncodeStationKey(id, name);
  }

  /** Decoding the query parameter gives back the key. */
  lemma RequestPathDecodes(id: string, name: string)
    ensures |DataPath| <= |RequestPath(id, name)|
    ensures DecodeURIComponent(RequestPath(id, name)[|DataPath|..]) == Some(StationKey(id, name))
  {
    var e := EncodeURIComponent(StationKey(id, name));
    DecodeEncode(StationKey(id, name));
    assert (DataPath + e)[|DataPath|..] == e;
  }

  /** Two stations with `|`-free ids are sent different requests. */
  lemma RequestPathInjective(id1: string, name1: string, id2: string, name2: string)
    requires '|' !in id1 && '|' !in id2
    requires RequestPath(id1, name1) == RequestPath(id2, name2)
    ensures id1 == id2 && name1 == name2
  {
    RequestPathDecodes(id1, name1);
    RequestPathDecodes(id2, name2);
    StationKeyInjective(id1, name1, id2, name2);
  }

  /** `getWeatherData`: asks for `RequestPath(id, name)` and hands back what
      the service answered, body or rejection, without any change. */
  function GetWeatherData(stationId: string, stationName: string,
                          service: string -> Result<WeatherApiResponse, HttpFailure>)
    : (r: Result<WeatherApiResponse, HttpFailure>)
    ensures r == service(DataPath + EncodeURIComponent(stationId + " | " + stationName))
  {
    service(RequestPath(stationId, stationName))
  }
}
