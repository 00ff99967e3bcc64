/** The shapes of the dashboard's records (src/types/index.ts) and the two
    small wrappers used for missing values and failed requests. */
module Types {

  /** A value that may be absent: `undefined` or `null` on the JavaScript side. */
  datatype Option<+T> = None | Some(value: T)

  /** The outcome of a request: a body, or the transport's failure. */
  datatype Result<+T, +E> = Ok(value: T) | Err(error: E)

  /** A JavaScript number. Coordinates and readings are only ever copied
      through, so no arithmetic of floating point is needed. */
  type Number = real

  /** JavaScript truthiness of a `string | undefined | null` value:
      absent values and the empty string are falsy. */
  predicate Truthy(s: Option<string>) {
    s.Some? && s.value != ""
  }

  /** Optional readings attached to a station. */
  datatype Measurements = Measurements(
    temperature: Option<Number>,
    humidity: Option<Number>,
    rainfall: Option<Number>,
    windSpeed: Option<Number>,
    windDirection: Option<Number>)

  /** `WeatherStation`. */
  datatype Station = Station(
    id: string,
    name: string,
    latitude: Number,
    longitude: Number,
    lastUpdate: Option<string>,
    measurements: Option<Measurements>)

  /** The eight raw readings keyed by their upstream abbreviations. */
  datatype ObservationValues = ObservationValues(
    ap: Number, pr: Number, ra: Number, rh: Number,
    te: Number, wd: Number, wg: Number, ws: Number)

  datatype Observations = Observations(
    status: Number,
    name: string,
    latitude: Number,
    longitude: Number,
    altitude: Number,
    installationHeight: Number,
    timezone: string,
    values: ObservationValues,
    lastReport: string,
    code: string,
    stationLocalReportedTime: string,
    utcReportedTime: string)

  /** One forecast entry: a date string and a rainfall amount. */
  type Forecast = (string, Number)

  datatype ResponseData = ResponseData(observations: Observations, forecasts: seq<Forecast>)

  /** `WeatherApiResponse`, the body of the `/data?station=` endpoint. */
  datatype WeatherApiResponse = WeatherApiResponse(status: string, data: ResponseData)

  /** `WeatherData`, the body the dashboard shell keeps for the selected station. */
  datatype WeatherData = WeatherData(
    timestamp: string,
    temperature: Option<Number>,
    humidity: Option<Number>,
    rainfall: Option<Number>,
    windSpeed: Option<Number>,
    windDirection: Option<Number>,
    airPressure: Option<Number>,
    solarRadiation: Option<Number>,
    windGust: Option<Number>)
}
