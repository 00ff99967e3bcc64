# Weather station dashboard — verified model of its logic

This project models, in Dafny, the three pieces of real logic inside the
weather station dashboard (a React front end over a station/weather
service):

* **The station table page** (`StationsPage`, from
  `src/pages/StationsPage.tsx`). It holds the case-insensitive search on
  station name or id and the page window cut from the matching stations.
  It also holds the Previous/Next buttons with their clamping, the
  rows-per-page selector that returns to page 0, the "Showing a - b of n"
  line and the Active/Offline tiles. The component's three state cells
  (`page`, `rowsPerPage`, `searchTerm`) form the class
  `StationsTable`, whose methods are the component's handlers. Everything
  the page derives from them is a function.
* **The service helpers** (`Api`, from `src/services/api.ts`).
  `getStations` reads each upstream row `[id, name, latitude, longitude]`
  into a station. `getWeatherData` builds the key `id + " | " + name` and
  asks for `/data?station=` followed by its `encodeURIComponent`
  encoding. The encoding itself (module `UriComponent`) follows ECMA-262:
  the unreserved characters of section 2.3 of RFC 2396 stay as they are,
  and every other character becomes its UTF-8 octets, each written `%HH`
  as in section 2.1 of RFC 3986. A decoder is defined beside it so that
  the round trip can be stated.
* **The dashboard shell** (`App`, from `src/App.tsx`). The five state
  cells `stations`, `selectedStationId`, `weatherData`, `loading` and
  `error` form the class `Dashboard`. It has one method per event: the
  station list arrives or fails, a station is selected, and a weather
  request succeeds or fails. The shell fetches `/get-weather/<id>` with
  the raw id and never calls the service helpers, so the two are modelled
  apart.

Shared record shapes (`Station`, `WeatherApiResponse`, `WeatherData`)
are in module `Types`. Generic `filter` facts are in `Seqs`. The ASCII
`toLowerCase` and `includes` are in `Text`.

The code does not rename upstream keys
(`te`→temperature), scale humidity, treat HTTP 500 as "no data", clear
the weather data on a new selection, check that a selected id is a known
station, fetch again when the selected station is chosen a second time,
or discard late responses. None of that is modelled. The model
proves the opposite where it matters: `Dashboard.Select` keeps
`weatherData` and issues no request for an unchanged id, and
`LateResponseScenario` shows a stale answer overwriting the data of a
newer selection.

## Model

| member | source | states |
|---|---|---|
| StationsPage.FilteredStations | src/pages/StationsPage.tsx:23-26 | every kept station is in the list and matches (lower-cased name or id contains the lower-cased term); every matching station of the list is kept |
| StationsPage.FilteredStationsAppend | src/pages/StationsPage.tsx:23-26 | the filter distributes over concatenation, so matches keep their original order |
| StationsPage.FilteredStationsEmptyTerm | src/pages/StationsPage.tsx:23-26 | an empty search term keeps every station |
| StationsPage.FilteredStationsIgnoreCase | src/pages/StationsPage.tsx:23-26 | two terms with the same lower-case form select the same stations |
| StationsPage.FilteredStationsLowerTerm | src/pages/StationsPage.tsx:23-26 | lower-casing the term first changes nothing |
| StationsPage.PaginatedStations | src/pages/StationsPage.tsx:29-32 | the page is the contiguous window starting at page*rowsPerPage, at most rowsPerPage long, empty exactly when the start is at or past the end |
| StationsPage.PageOfIndex | src/pages/StationsPage.tsx:29-32 | every filtered station appears on page i / rowsPerPage at row i % rowsPerPage |
| StationsPage.PageCount | src/pages/StationsPage.tsx:179-180 | the page count is ceil(n / rowsPerPage): enough pages for n rows, and no page more |
| StationsPage.PreviousTarget | src/pages/StationsPage.tsx:163 | Previous goes one page back and never below page 0 |
| StationsPage.PreviousDisabled | src/pages/StationsPage.tsx:164 | Previous is disabled exactly when clicking it would leave the page where it is |
| StationsPage.NextTarget | src/pages/StationsPage.tsx:179 | the Next target is never past page+1 and never past the last page |
| StationsPage.NextDisabled | src/pages/StationsPage.tsx:180 | Next is disabled exactly when clicking it would not move the page forward |
| StationsPage.NextEnabledIffNextPageHasRows | src/pages/StationsPage.tsx:179-180 | Next is enabled exactly when the following page has rows, and then moves to page+1 |
| StationsPage.NextDisabledWhenEmpty | src/pages/StationsPage.tsx:180 | with nothing matching, Next is disabled on every page |
| StationsPage.ShowingFrom | src/pages/StationsPage.tsx:158 | the lower end of "Showing" is never below 1 |
| StationsPage.ShowingFromIsFirstRow | src/pages/StationsPage.tsx:158 | on a page with rows, the lower end is the 1-based position of the page's first row in the filtered list |
| StationsPage.ShowingTo | src/pages/StationsPage.tsx:158 | the upper end of "Showing" never exceeds the filtered count |
| StationsPage.ShowingMatchesPage | src/pages/StationsPage.tsx:158 | the "Showing" range spans exactly as many rows as the page shows; past the end it is inverted ("1 - 0 of 0") |
| StationsPage.ActiveCount | src/pages/StationsPage.tsx:68 | the Active tile is at most the total, and zero exactly when no station has a truthy lastUpdate |
| StationsPage.OfflineCount | src/pages/StationsPage.tsx:73 | the Offline tile is at most the total, and zero exactly when every station has a truthy lastUpdate |
| StationsPage.ActiveOfflinePartition | src/pages/StationsPage.tsx:68-78 | Active count plus Offline count equals the Total count |
| StationsPage.NoneActive | src/pages/StationsPage.tsx:68-73 | stations without a truthy lastUpdate are all Offline and none Active |
| StationsPage.StationsTable.constructor | src/pages/StationsPage.tsx:18-20 | page 0, 10 rows per page, empty search term |
| StationsPage.StationsTable.Visible | src/pages/StationsPage.tsx:116-151 | the table body holds at most rowsPerPage matching stations of the list; it is empty ("No stations found.") exactly when the filtered count is at or below the page start |
| StationsPage.StationsTable.HandleChangePage | src/pages/StationsPage.tsx:35-37 | sets page and nothing else |
| StationsPage.StationsTable.HandleChangeRowsPerPage | src/pages/StationsPage.tsx:40-43 | sets the new page size and always resets page to 0 |
| StationsPage.StationsTable.ChangeSearchTerm | src/pages/StationsPage.tsx:90 | changes the term and leaves page and page size alone |
| StationsPage.StationsTable.ClickPrevious | src/pages/StationsPage.tsx:161-165 | no change on page 0 (button disabled), otherwise one page back |
| StationsPage.StationsTable.ClickNext | src/pages/StationsPage.tsx:177-181 | no change when disabled; otherwise page+1, at most the last page, and the new page has rows |
| UriComponent.EncodeChar | src/services/api.ts:35 | an unreserved character is kept, any other is written as %HH per UTF-8 octet |
| UriComponent.EncodeURIComponent | src/services/api.ts:35 | the encoding holds only unreserved characters and `%`, and is at least as long as the input |
| UriComponent.EncodeAppend | src/services/api.ts:35 | encoding works character by character: it distributes over concatenation and keeps order |
| UriComponent.EncodeUnreserved | src/services/api.ts:35 | strings of unreserved characters pass through unchanged |
| UriComponent.EncodedHasNoSpaceOrBar | src/services/api.ts:35 | no space and no `\|` survive encoding |
| UriComponent.EncodeSeparator | src/services/api.ts:34-35 | " \| " encodes as "%20%7C%20" |
| UriComponent.DecodeEncode | src/services/api.ts:35 | decoding the encoding gives back the original string |
| UriComponent.EncodeInjective | src/services/api.ts:35 | different strings have different encodings |
| Api.DecodeStations | src/services/api.ts:18-26 | one station per row, same length and order; id, name, latitude, longitude are positions 0-3; lastUpdate is null |
| Api.DecodeStationsRoundTrip | src/services/api.ts:19-23 | reading the four fields back off the stations gives the rows again |
| Api.DecodeStationsAppend | src/services/api.ts:18-26 | decoding works row by row: it distributes over concatenation |
| Api.DecodedStationsAreOffline | src/services/api.ts:24 | decoded stations count as Offline, none as Active |
| Api.GetStations | src/services/api.ts:13-27 | a rejected request propagates unchanged; a body is decoded row for row |
| Api.StationKey | src/services/api.ts:33-34 | the key is the id, then " \| ", then the name |
| Api.SplitStationKey | src/services/api.ts:33-34 | for an id without `\|`, splitting the key at the first separator recovers id and name |
| Api.StationKeyInjective | src/services/api.ts:33-34 | for ids without `\|`, different (id, name) pairs give different keys |
| Api.EncodeStationKey | src/services/api.ts:34-35 | the encoded key is the encoded id, "%20%7C%20", the encoded name |
| Api.RequestPath | src/services/api.ts:35 | the request path contains no space and no `\|` |
| Api.RequestPathShape | src/services/api.ts:35 | the path is "/data?station=" followed by the encoded id, "%20%7C%20" and the encoded name |
| Api.RequestPathDecodes | src/services/api.ts:35 | decoding the query parameter gives back the key |
| Api.RequestPathInjective | src/services/api.ts:33-35 | stations with `\|`-free ids are sent different requests |
| Api.GetWeatherData | src/services/api.ts:30-38 | the service is asked for the encoded key path and its answer, body or rejection, is returned unchanged |
| App.FindIndex | src/App.tsx:61 | the index of the first station with the id, or none when no station has it |
| App.FindStation | src/App.tsx:61 | the displayed station is the first whose id equals the selected id; none when nothing is selected or no id matches |
| App.Dashboard.DisplayedStation | src/App.tsx:61 | the panel's station is one of the list whose id is the selected id; it is absent under a selection only when no station has that id |
| App.Dashboard.constructor | src/App.tsx:10-14 | no stations, no selection, no weather data, not loading, no error; no request outstanding, so the invariant "loading only while a weather request is outstanding" holds |
| App.Dashboard.StationsLoaded | src/App.tsx:17-23 | the body replaces the station list whole; nothing else changes; loading still implies a weather request is outstanding |
| App.Dashboard.StationsFailed | src/App.tsx:20-27 | the error becomes "Error loading stations"; nothing else changes; loading still implies a weather request is outstanding |
| App.Dashboard.WeatherEffect | src/App.tsx:31-37 | an undefined or empty id changes nothing and fetches nothing; otherwise loading is set, error cleared, weather data kept, and /get-weather/ plus the raw id requested; loading still implies a weather request is outstanding |
| App.Dashboard.Select | src/App.tsx:31-48 | the effect runs only when the id changes value; a fetch is issued for any new non-empty id, known station or not; loading still implies a weather request is outstanding |
| App.Dashboard.WeatherOk | src/App.tsx:42-47 | the body replaces the weather data whole and loading ends; the error is left as it was; loading still implies a weather request is outstanding |
| App.Dashboard.WeatherFailed | src/App.tsx:39-47 | the error becomes "Error loading weather data", the previous weather data stays, loading ends; loading still implies a weather request is outstanding |
| App.LateResponseScenario | src/App.tsx:31-48 | after selecting a then b, the answer for a is shown under b and loading ends while b's request is outstanding |
| App.ReselectScenario | src/App.tsx:48 | selecting the selected station again issues no request |

## Left out

- HTTP transport, including the station list URL fetched once on mount (`src/App.tsx:17-28`): the axios instance and its base URL (`src/services/api.ts:5-10`), `fetch` and `res.json()` (`src/App.tsx:18-21`, `37-40`). Responses enter the model as values: an `Ok` body or an `Err` failure for the helpers, a method call for the shell.
- Asynchrony: promises and React scheduling are not modelled. Each completion is one method call applied atomically. The ghost counter `pending` only records how many weather requests are outstanding.
- Rendering: JSX, styling, the loading skeleton and the error banner of the station page (`src/pages/StationsPage.tsx:45-54`, `95-101`), charts, maps and the other components. The `loading` and `error` props of the station page only affect rendering.
- Number formatting and locale (`toFixed`, `toLocaleString`). Latitude, longitude and readings are opaque numbers that are only copied.
- Text.Lower: `toLowerCase` is modelled on ASCII letters only. Other scripts' case mappings are not captured.
- UriComponent.EncodeURIComponent: Dafny strings hold Unicode scalar values. A JavaScript string with a lone surrogate, for which `encodeURIComponent` throws `URIError`, cannot be represented.
- Api.DecodeStations: rows are typed as 4-tuples, as the source annotates them. JavaScript destructuring of a shorter row would yield `undefined` fields, and a body that is not an array would throw. Neither case is modelled.
- App.FindStation / App.Dashboard.StationsLoaded: the station body is taken to be a list of WeatherStation records with string ids, as `src/App.tsx:10` declares the state. `res.json()` is installed unchecked (`src/App.tsx:21-23`), and the upstream rows are positional arrays (`src/services/api.ts:17`). On elements without an `id`, `find` with no selection (`undefined === undefined`) would return the first element rather than none; that case is not modelled.
- `parseInt` of the rows-per-page selector: only the four offered values (5, 10, 25, 50) can arrive, so the method requires one of them.
- The "View Data" button of the station page (`src/pages/StationsPage.tsx:140`) only forwards the id to its `onStationSelect` prop. The parent that renders the station page is not among the modelled files, so what that callback does is not modelled. `Dashboard.Select` models the shell's own selection, which `src/App.tsx:53-57` wires to the station list.
- `console.log` / `console.error` calls and the commented-out earlier versions of the components.
- src/pages/StationDataPage.tsx, src/components/* and src/types/index.ts hold no logic of this core. The types are used for the datatypes.
