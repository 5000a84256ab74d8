# Activity catalog, NASA POWER post-processing and geocoding: a Dafny model

This project models the sequential logic of a weather backend. The backend
geocodes a city and then downloads daily NASA POWER observations for the
resulting point. Three parts are modelled:

- **The activity parameter catalog** (module `ActivityParameters`). It has
  three static tables: parameter code → description, activity →
  comma-separated NASA POWER parameter string, and alias → canonical
  activity. Two lookups sit on them. `get_parameters_for_activity` lowers
  and strips its input, follows at most one alias and returns `None` when
  nothing matches. `describe_parameter` falls back to
  `"Unknown parameter code"`.
- **NASA POWER post-processing** (module `DatasetService`). It defaults the
  dates to `<year>0101`/`<year>1231` and builds the request parameters.
  It fails on a transport error or a non-2xx status. It reads the CSV
  payload after a ten-line preamble and drops the rows whose cells are all
  missing. It then keeps the expected columns in the frame's own order and
  builds the summary dict. The table is a header plus rows of optional
  cells.
- **Geocoding** (module `LocationService`). It builds the query string
  `city,state,country` or `city,country`. An empty answer gives the
  not-found dict; otherwise the first place is projected into the
  response.

Everything is pure, as in the source. The modules are state-free functions
with lemmas; no loops or in-place updates are involved.

Supporting modules:

- `Wrappers` holds `Option` and `Result`.
- `Text` models the Python string operations the core uses: `lower`,
  `strip`, `split`/`join` on one character, and `str(n)`.
- `Seqs` models order-preserving selection (filter, positions, pick).

Collaborators that are not visible become parameters:

- The HTTP exchange with NASA POWER is `upstream: RequestParams ->
  Result<HttpResponse, string>`, where the failure is a transport error.
- The cached geocoding call is `lookup: (string, int) ->
  Result<seq<Record>, string>`.
- The clock is the parameter `currentYear`.

Facts about the code that the model follows:

- `fetch_nasa_power_data` keeps nothing on disk. It has no cache, no file
  path, no per-year chunking and no "cached" status; its summary's status
  is always "downloaded". The repository's own test and download script do
  expect a `file_path` key and a cached status on a repeated call
  (tests/test_dataset_service.py:39-45, scripts/manual_dataset_download.py:18).
  That behaviour is not in the code and is not modelled.
- The default range is Jan 1 to Dec 31 of the current calendar year.
- A non-2xx response fails the whole call.
- The kept columns appear in the payload's own order.
- An unresolved location is returned as an `{"error": ...}` dict; nothing
  is raised.

## Model

| member | source | states |
|---|---|---|
| ActivityParameters.ParameterDefinitions | src/utils/activity_parameters.py:16-29 | the code → description table; `DescribeParameter`, `DescribeKnown` and `DefinedCodesHaveNoComma` state its content |
| ActivityParameters.ActivityParams | src/utils/activity_parameters.py:35-53 | the activity → parameter-string table, each value the comma-join of the activity's codes; `ActivityKeys` and `ParameterCodesDefined` state its keys and values |
| ActivityParameters.ActivityAliases | src/utils/activity_parameters.py:59-69 | the alias → activity table; `AliasKeys`, `AliasTargets` and `AliasesSingleLevel` state its keys and targets |
| ActivityParameters.Normalize | src/utils/activity_parameters.py:80 | `activity.lower().strip()`; `NormalizeSpec` and `NormalizeIdempotent` state what it yields |
| ActivityParameters.GetParametersForActivity | src/utils/activity_parameters.py:75-82 | a found parameter string is always one of the `ACTIVITY_PARAMS` values |
| ActivityParameters.DescribeParameter | src/utils/activity_parameters.py:85-87 | a known code gets its `PARAMETER_DEFINITIONS` entry, any other code gets "Unknown parameter code" |
| ActivityParameters.NormalizeSpec | src/utils/activity_parameters.py:80 | `lower().strip()` yields a string with no upper-case letter and no whitespace at either end, and leaves such a string unchanged |
| ActivityParameters.NormalizeIdempotent | src/utils/activity_parameters.py:80 | normalising twice equals normalising once |
| ActivityParameters.LookupIgnoresCaseAndWhitespace | src/utils/activity_parameters.py:80-82 | the lookup of `s` equals the lookup of `s.lower().strip()` |
| ActivityParameters.AliasKeys | src/utils/activity_parameters.py:59-69 | the alias table has exactly the nine alias names as keys |
| ActivityParameters.ActivityKeys | src/utils/activity_parameters.py:35-53 | the activity table has exactly the eight activities as keys |
| ActivityParameters.AliasTargets | src/utils/activity_parameters.py:59-69 | the alias targets are exactly camping, boating, photography, agriculture, aviation and outdoor_wedding |
| ActivityParameters.AliasKeysNormalized | src/utils/activity_parameters.py:59-69 | every alias key is already lower-case and stripped, so each is reachable as typed |
| ActivityParameters.ActivityKeysNormalized | src/utils/activity_parameters.py:35-53 | every activity key is already lower-case and stripped |
| ActivityParameters.AliasesDisjoint | src/utils/activity_parameters.py:35-69 | no alias is also an activity key, so an alias never shadows a canonical name |
| ActivityParameters.AliasesSingleLevel | src/utils/activity_parameters.py:59-69 | every alias target is an activity key and none is itself an alias |
| ActivityParameters.ActivityCodesDefined | src/utils/activity_parameters.py:16-53 | every code listed for an activity is a defined parameter code and contains no comma |
| ActivityParameters.DefinedCodesHaveNoComma | src/utils/activity_parameters.py:16-29 | no defined parameter code contains the comma separator |
| ActivityParameters.ParameterCodesDefined | src/utils/activity_parameters.py:16-53 | splitting an activity's parameter string on commas gives back its code list, and every code is a key of `PARAMETER_DEFINITIONS` |
| ActivityParameters.CanonicalLookup | src/utils/activity_parameters.py:80-82 | an input that normalises to an activity key returns that key's parameter string unchanged |
| ActivityParameters.AliasLookup | src/utils/activity_parameters.py:81-82 | an input that normalises to an alias returns exactly the parameter string of the alias's target, the same as looking up the target |
| ActivityParameters.LookupDefinedExactly | src/utils/activity_parameters.py:80-82 | the lookup returns `None` if and only if the normalised input is neither an alias nor an activity |
| ActivityParameters.HikingAliasesCamping | src/utils/activity_parameters.py:60 | "hiking" is an alias of "camping" |
| ActivityParameters.HikingIsCamping | src/utils/activity_parameters.py:37-82 | "hiking" gives the same result as "camping", namely the comma-join of camping's seven codes T2M, T2M_MAX, T2M_MIN, RH2M, PRECTOTCORR, ALLSKY_KT, WS2M |
| ActivityParameters.PaddedHikingNormalizes | src/utils/activity_parameters.py:80 | " Hiking\t" normalises to "hiking" |
| ActivityParameters.HikingInAnyFormIsCamping | src/utils/activity_parameters.py:75-82 | any input that normalises to "hiking" gives the result of "camping" |
| ActivityParameters.DescribeUnknownExactly | src/utils/activity_parameters.py:85-87 | the placeholder is returned if and only if the code is not a key of the definitions |
| ActivityParameters.DescribeKnown | src/utils/activity_parameters.py:17-20 | T2M and RH2M are described by their own table texts |
| ActivityParameters.DescribeIsCaseSensitive | src/utils/activity_parameters.py:85-87 | "T2M" is known while "t2m" and " T2M" get the placeholder: no case folding, no stripping |
| Text.Lower | src/utils/activity_parameters.py:80 | the model of `lower()` maps each ASCII upper-case letter to its lower-case letter and leaves every other character as it is, so the length is kept (see "Left out") |
| Text.LowerFixpoint | src/utils/activity_parameters.py:80 | a lowered string has no upper-case letter, and a string is its own lower-case form if and only if it has none |
| Text.TrimStart | src/utils/activity_parameters.py:80 | the leading-whitespace half of `strip()`: a suffix of the input, preceded only by whitespace, that does not start with whitespace |
| Text.TrimEnd | src/utils/activity_parameters.py:80 | the trailing-whitespace half of `strip()`: a prefix of the input, followed only by whitespace, that does not end with whitespace |
| Text.Strip | src/utils/activity_parameters.py:80 | `strip()` returns a slice with only whitespace outside it and no whitespace at either of its ends |
| Text.StripIdempotent | src/utils/activity_parameters.py:80 | stripping twice equals stripping once |
| Text.StripNoUpper | src/utils/activity_parameters.py:80 | stripping a string without upper-case letters gives a string without upper-case letters |
| Text.Split | src/utils/activity_parameters.py:35-53 | `split(sep)` returns at least one piece, and no piece contains the separator |
| Text.JoinSplit | src/utils/activity_parameters.py:35-53 | joining the pieces of a split gives back the string |
| Text.Join | src/utils/activity_parameters.py:35-53 | `sep.join(parts)`; `JoinSplit` and `SplitJoin` state that it inverts `Split` |
| Text.SplitJoin | src/utils/activity_parameters.py:35-53 | splitting a join of at least one separator-free piece gives back the pieces |
| Text.NatToString | src/services/dataset_service.py:22-23 | `str(year)` is a non-empty digit string with no leading zero unless the number is 0 |
| Text.NatToStringValue | src/services/dataset_service.py:22-23 | the digits of `str(n)` read back as `n` |
| Seqs.Filter | src/services/dataset_service.py:41-45 | an order-preserving filter: no longer than the input, every element kept passes the test; `FilterAtPositions`, `FilterSubset` and `FilterAllKept` state which elements it keeps |
| Seqs.Pick | src/services/dataset_service.py:45 | the elements at the given positions, in the order of the positions |
| Seqs.FilterSubset | src/services/dataset_service.py:41 | every element of a filter is an element of the input |
| Seqs.FilterAllKept | src/services/dataset_service.py:41 | a filter whose test holds for every element returns the input unchanged |
| Seqs.Positions | src/services/dataset_service.py:45 | the kept positions are ascending, in range, and are exactly the positions whose element satisfies the test |
| Seqs.FilterAtPositions | src/services/dataset_service.py:41-45 | a filter is the subsequence at exactly those positions, in order |
| DatasetService.OrElse | src/services/dataset_service.py:22-23 | Python's `value or default` on an optional string; `DatesDefaulted` states its cases |
| DatasetService.DefaultStart | src/services/dataset_service.py:22 | `f"{year}0101"`; `DatesDefaulted` and `DefaultDatesAreYyyymmdd` state its form |
| DatasetService.DefaultEnd | src/services/dataset_service.py:23 | `f"{year}1231"`; `DatesDefaulted` and `DefaultDatesAreYyyymmdd` state its form |
| DatasetService.BuildRequest | src/services/dataset_service.py:25-32 | the request dict; `RequestParamsFixed` states its six entries |
| DatasetService.MissingMarkers | src/services/dataset_service.py:40 | the strings pandas reads as missing by default (empty, `NA`, `NaN`, `null`, `n/a` and the rest) |
| DatasetService.ParseField | src/services/dataset_service.py:40 | a field that is one of the missing markers becomes a missing cell, any other field a present cell holding the text |
| DatasetService.IsNotBlank | src/services/dataset_service.py:40 | `skip_blank_lines`: a line is skipped when it is empty or holds only spaces and tabs |
| DatasetService.DataLines | src/services/dataset_service.py:40 | the lines the reader sees: the non-blank lines after the ten-line preamble, in order; `EleventhLineIsHeader` and `ReadCsv` state how they are used |
| DatasetService.SkipPreamble | src/services/dataset_service.py:40 | the first ten lines are dropped, and a payload of at most ten lines leaves nothing |
| DatasetService.IndexColumns | src/services/dataset_service.py:40-41 | pandas' implicit index: as many index columns as the first line after the header has fields beyond the header, and none when it has no more |
| DatasetService.ParseRow | src/services/dataset_service.py:40-41 | a data line becomes a row of exactly the header's width: with `k` index fields in front, cell `i` is the parse of comma-separated field `k + i`, the index fields are dropped and missing trailing fields are missing cells; it fails, with a tokenizing error naming the expected `k` + width and the seen field count, if and only if it has more than `k` + width fields |
| DatasetService.ParseRows | src/services/dataset_service.py:40 | all data lines are read in order: row `i` is the parse of line `i`, each of the header's width; the read fails, with a tokenizing error, if and only if some line has too many fields |
| DatasetService.FirstRowAlwaysParses | src/services/dataset_service.py:40 | the first line after the header never fails, because its excess fields become the index |
| DatasetService.NoIndexWhenFirstRowFits | src/services/dataset_service.py:40 | when the first line after the header is no longer than the header there is no index, and each row's cells are the line's own fields in order |
| DatasetService.ParseRowsFailsAtFirst | src/services/dataset_service.py:40 | a failed read reports the error of the first line that fails and every earlier line parses |
| DatasetService.ReadCsv | src/services/dataset_service.py:40 | `EmptyDataError` if and only if no data line remains; otherwise the first data line split on commas is the header, `k` is the number of fields by which the first line after the header exceeds it (0 when it does not, see `IndexColumns`), the read succeeds if and only if no later line has more than `k` fields beyond the header, row `i` is the parse of data line `i + 1` with its first `k` fields dropped, and every row has one cell per column; with no excess on the first line, success means no line is longer than the header |
| DatasetService.DropEmptyRows | src/services/dataset_service.py:41 | `dropna(how="all")` keeps the header, and every remaining row has a present cell |
| DatasetService.SelectColumns | src/services/dataset_service.py:44-45 | the filtered frame stays well formed and holds only expected columns |
| DatasetService.Summarize | src/services/dataset_service.py:48-55 | the summary dict; `FetchNasaPowerData` states its six entries |
| DatasetService.ProcessPayload | src/services/dataset_service.py:40-45 | a processed payload is a well-formed frame of expected columns only |
| DatasetService.FetchNasaPowerData | src/services/dataset_service.py:14-55 | a transport failure is propagated and a non-2xx status fails with that status; otherwise the result is the processed payload, and its summary has the output's row count and header, "NASA POWER", "downloaded" and the given lat/lon |
| DatasetService.DatesDefaulted | src/services/dataset_service.py:21-23 | a missing or empty start/end becomes `<year>0101` / `<year>1231`, and a supplied one passes through unchanged |
| DatasetService.DefaultDatesAreYyyymmdd | src/services/dataset_service.py:22-23 | for a four-digit year the defaults are eight digits whose first four read as the year |
| DatasetService.RequestParamsFixed | src/services/dataset_service.py:25-32 | the request always carries `PRECTOT,T2M,RH2M` and `CSV`, plus the given start, end, lat and lon |
| DatasetService.RequestedParametersKept | src/services/dataset_service.py:26-44 | the requested parameters split into PRECTOT, T2M and RH2M, each one an expected column |
| DatasetService.RequestedPrecipitationNotInCatalog | src/services/dataset_service.py:26 | the requested precipitation code PRECTOT is unknown to the activity catalog's descriptions |
| DatasetService.FetchUsesBuiltRequest | src/services/dataset_service.py:25-37 | the result depends on the upstream service only through its answer to the one request built from the inputs |
| DatasetService.PreambleIgnored | src/services/dataset_service.py:40 | payloads that agree from the eleventh line on are read alike |
| DatasetService.EleventhLineIsHeader | src/services/dataset_service.py:40 | when the eleventh line is not blank, it is the first data line and supplies the column names |
| DatasetService.DropEmptyRowsKeepsExactly | src/services/dataset_service.py:41 | the kept rows are the rows at ascending positions, and those positions are exactly the rows with a present cell |
| DatasetService.DropEmptyRowsIdempotent | src/services/dataset_service.py:41 | dropping empty rows twice equals dropping them once |
| DatasetService.SelectColumnsSpec | src/services/dataset_service.py:44-45 | the output columns are exactly the input columns in the expected set, in input order; row count and retained cells are unchanged |
| DatasetService.RetainedRowMayBeEmpty | src/services/dataset_service.py:41-45 | because rows are dropped before columns are filtered, a row whose only value is in a dropped column survives as all-missing |
| LocationService.Get | src/services/location_service.py:31-35 | `result.get(key)` is the value of a present key and null otherwise |
| LocationService.FetchCoordinates | src/services/location_service.py:21-37 | a failed lookup propagates, an empty answer gives the not-found dict, and a non-empty one is projected from its first place |
| LocationService.Query | src/services/location_service.py:23 | the query string; `QueryWithState`, `QueryWithoutState` and `QueryComponentsRecoverable` state its two forms |
| LocationService.NotFound | src/services/location_service.py:26-27 | the not-found dict; `NotFoundExactly` states when it is returned |
| LocationService.Project | src/services/location_service.py:29-37 | the response built from the first place; `ProjectionFields` states its six entries |
| LocationService.QueryWithState | src/services/location_service.py:23 | with a non-empty state the query is `city,state,country` |
| LocationService.QueryWithoutState | src/services/location_service.py:23 | with no state, or an empty one, the query is `city,country` |
| LocationService.DefaultQuery | src/services/location_service.py:21-23 | with the defaults the query is `city,US` |
| LocationService.QueryComponentsRecoverable | src/services/location_service.py:23 | when no component contains a comma, the query splits back into exactly its components |
| LocationService.CommaInCityIsAmbiguous | src/services/location_service.py:23 | a city containing a comma sends the same query as a city-and-state pair |
| LocationService.LooksUpBuiltQuery | src/services/location_service.py:21-24 | the answer depends on the lookup only through its result for the built query and the caller's limit |
| LocationService.NotFoundExactly | src/services/location_service.py:26-27 | the answer is exactly `{"error": "Location not found"}` if and only if the lookup returns an empty list |
| LocationService.OnlyFirstResultMatters | src/services/location_service.py:29 | answers whose first places agree give the same response, so later entries never matter |
| LocationService.ProjectionFields | src/services/location_service.py:30-37 | the response has exactly six keys; state is echoed, city/country/latitude/longitude come from name/country/lat/lon (null when absent), and cached is true |
| LocationService.EmptyStateEchoed | src/services/location_service.py:23-32 | an empty state is left out of the query but still echoed as "" |

## Left out

- HTTP: `httpx`, the 30-second timeout, the base URLs, the API key and the `appid` parameter are not modelled. The exchanges are the parameters `upstream` and `lookup`, and their exceptions are `Result` failures.
- `lru_cache` memoisation of the geocoding call is not modelled. It only saves repeated calls, if `lookup` answers a repeated `(query, limit)` the same way.
- `async` and the event loop are not modelled; both functions are modelled as plain sequential computations.
- `date.today()` becomes the `currentYear` parameter.
- Latitude and longitude are `real` values echoed untouched; no floating-point behaviour is modelled.
- DatasetService.ReadCsv: pandas is modelled only as "split into lines, drop ten, skip lines that are empty or hold only spaces and tabs, first line is the header, comma-separated fields, an implicit index of `k` columns when the next line has `k` ≥ 1 more fields than the header (its values are dropped, as `reset_index(drop=True)` does), default NA strings become missing". The following are not modelled:
  - quoting and escaping;
  - `\r\n` line endings;
  - type inference;
  - renaming of duplicate column names (`X.1`);
  - renaming of empty column names (`Unnamed: i`) — these columns are never expected, so the output is unaffected;
  - whether pandas counts blank lines inside the preamble.
- DatasetService.DropEmptyRows: `reset_index(drop=True)` is not a separate step, because the model keeps no row index: `ReadCsv` already drops the implicit index columns, and row order is kept.
- DatasetService.FetchNasaPowerData: the summary and the table are returned as the pair `(Summary, Table)` instead of a dict and a data frame.
- Text.Lower: folds ASCII letters only and keeps the length. Python's `str.lower` also folds other letters (the Kelvin sign U+212A becomes `k`, `É` becomes `é`) and can lengthen a string (`"İ".lower()` has two code points). Inputs holding such letters are not modelled; the whitespace set of `strip()` is modelled in full.
- ActivityParameters.GetParametersForActivity: inherits the ASCII-only case folding of `Text.Lower`.
- ActivityParameters.ActivityParams: each value is modelled as the comma-join of the activity's code list. That these joins equal the string literals of `ACTIVITY_PARAMS` holds by reading the table; it is not proved.
- FastAPI routes, settings loading, the data-validation and manual download scripts, and the tests that expect a disk cache are not part of this model.
