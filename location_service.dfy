/** OpenWeather direct geocoding: the query string built from a city, an
    optional state and a country, and the projection of the first matching
    place into the response. The cached HTTP helper is a parameter, `lookup`,
    from a query and a limit to the decoded JSON list or the failure. */
module LocationService {
  import opened Wrappers
  import opened Text

  const NotFoundMessage := "Location not found"
  const DefaultCountry := "US"
  const DefaultLimit := 1

  /** A decoded JSON value. */
  datatype Json =
    | JNull
    | JBool(b: bool)
    | JNum(n: real)
    | JStr(s: string)
    | JArray(items: seq<Json>)
    | JObject(fields: map<string, Json>)

  /** One place in the geocoding answer. */
  type Record = map<string, Json>

  /** `record.get(key)`: the value, or `None` (JSON null) when absent. */
  function Get(record: Record, key: string): (v: Json)
    ensures key !in record ==> v == JNull
    ensures key in record ==> v == record[key]
  {
    if key in record then record[key] else JNull
  }

  /** A Python `str | None` argument as the JSON value it is echoed as. */
  function OptionalString(s: Option<string>): Json {
    match s
    case None => JNull
    case Some(v) => JStr(v)
  }

  /** `f"{city},{state},{country}" if state else f"{city},{country}"`. */
  function Query(city: string, state: Option<string>, country: string): string {
    if state.Some? && state.value != "" then city + "," + state.value + "," + country
    else city + "," + country
  }

  /** The answer for an empty lookup result. */
  function NotFound(): map<string, Json> {
    map["error" := JStr(NotFoundMessage)]
  }

  /** The answer built from the first place found. */
  function Project(result: Record, state: Option<string>): map<string, Json> {
    map["city" := Get(result, "name"),
        "state" := OptionalString(state),
        "country" := Get(result, "country"),
        "latitude" := Get(result, "lat"),
        "longitude" := Get(result, "lon"),
        "cached" := JBool(true)]
  }

  /** `fetch_coordinates(city, state, country, limit)`: a failure of the
      lookup propagates; otherwise an empty list is the not-found answer and
      a non-empty one is projected from its first element. */
  function FetchCoordinates(
    lookup: (string, int) -> Result<seq<Record>, string>,
    city: string, state: Option<string> := None,
    country: string := DefaultCountry, limit: int := DefaultLimit
  ): (r: Result<map<string, Json>, string>)
    ensures lookup(Query(city, state, country), limit).Failure? ==>
              r == Failure(lookup(Query(city, state, country), limit).error)
    ensures lookup(Query(city, state, country), limit) == Success([]) ==> r == Success(NotFound())
    ensures forall data | lookup(Query(city, state, country), limit) == Success(data) && |data| > 0 ::
              r == Success(Project(data[0], state))
  {
    var data :- lookup(Query(city, state, country), limit);
    if |data| == 0 then Success(NotFound()) else Success(Project(data[0], state))
  }

  // ---------------------------------------------------------------------------
  // Query construction
  // ---------------------------------------------------------------------------

  /** With a non-empty state the query names city, state and country. */
  lemma QueryWithState(city: string, state: string, country: string)
    requires state != ""
    ensures Query(city, Some(state), country) == city + [','] + state + [','] + country
  {
  }

  /** Without a state, or with an empty one, the query names city and
      country only. */
  lemma QueryWithoutState(city: string, state: Option<string>, country: string)
    requires state == None || state == Some("")
    ensures Query(city, state, country) == city + [','] + country
  {
  }

  /** The default country and no state ask for `city,US`. */
  lemma DefaultQuery(city: string)
    ensures Query(city, None, DefaultCountry) == city + ",US"
  {
  }

  /** When no component contains a comma, the query splits back into its
      components, so distinct inputs give distinct queries. */
  lemma QueryComponentsRecoverable(city: string, state: Option<string>, country: string)
    requires ',' !in city && ',' !in country
    requires state.Some? ==> ',' !in state.value
    ensures state.Some? && state.value != "" ==>
              Split(Query(city, state, country), ',') == [city, state.value, country]
    ensures (state == None || state == Some("")) ==>
              Split(Query(city, state, country), ',') == [city, country]
  {
    if state.Some? && state.value != "" {
      var parts := [city, state.value, country];
      assert parts[1..] == [state.value, country] && parts[1..][1..] == [country];
      assert Join(parts[1..], ',') == state.value + [','] + country;
      assert Join(parts, ',') == city + [','] + Join(parts[1..], ',');
      assert Join(parts, ',') == Query(city, state, country);
      SplitJoin(parts, ',');
    } else {
      var parts := [city, country];
      assert Join(parts, ',') == Query(city, state, country);
      SplitJoin(parts, ',');
    }
  }

  /** A comma inside the city is not escaped: a city named `a,b` in country
      `c` sends the same query as city `a` in state `b` of country `c`. */
  lemma CommaInCityIsAmbiguous(a: string, b: string, c: string)
    requires b != ""
    ensures Query(a + "," + b, None, c) == Query(a, Some(b), c)
  {
  }

  // ---------------------------------------------------------------------------
  // Lookup and projection
  // ---------------------------------------------------------------------------

  /** The answer depends on the lookup only through its result for the
      built query and the caller's limit. */
  lemma LooksUpBuiltQuery(
    lookup1: (string, int) -> Result<seq<Record>, string>,
    lookup2: (string, int) -> Result<seq<Record>, string>,
    city: string, state: Option<string>, country: string, limit: int)
    requires lookup1(Query(city, state, country), limit) == lookup2(Query(city, state, country), limit)
    ensures FetchCoordinates(lookup1, city, state, country, limit)
         == FetchCoordinates(lookup2, city, state, country, limit)
  {
  }

  /** The not-found answer is given exactly when the lookup succeeds with
      no place. */
  lemma NotFoundExactly(
    lookup: (string, int) -> Result<seq<Record>, string>,
    city: string, state: Option<string>, country: string, limit: int)
    ensures FetchCoordinates(lookup, city, state, country, limit) == Success(map["error" := JStr("Location not found")])
        <==> lookup(Query(city, state, country), limit) == Success([])
  {
    var r := FetchCoordinates(lookup, city, state, country, limit);
    var answer := lookup(Query(city, state, country), limit);
    if answer.Success? && |answer.value| > 0 {
      assert "city" in r.value && "city" !in NotFound();
    }
  }

  /** Only the first place matters: answers whose first places agree give
      the same response. */
  lemma OnlyFirstResultMatters(
    lookup1: (string, int) -> Result<seq<Record>, string>,
    lookup2: (string, int) -> Result<seq<Record>, string>,
    city: string, state: Option<string>, country: string, limit: int)
    requires lookup1(Query(city, state, country), limit).Success?
    requires lookup2(Query(city, state, country), limit).Success?
    requires |lookup1(Query(city, state, country), limit).value| > 0
    requires |lookup2(Query(city, state, country), limit).value| > 0
    requires lookup1(Query(city, state, country), limit).value[0]
          == lookup2(Query(city, state, country), limit).value[0]
    ensures FetchCoordinates(lookup1, city, state, country, limit)
         == FetchCoordinates(lookup2, city, state, country, limit)
  {
  }

  /** A found place is answered with exactly six fields: `state` echoed from
      the input, `city`, `country`, `latitude`, `longitude` read from the
      place's `name`, `country`, `lat`, `lon` (null when absent), and
      `cached` always true. */
  lemma ProjectionFields(result: Record, state: Option<string>)
    ensures var out := Project(result, state);
            && out.Keys == {"city", "state", "country", "latitude", "longitude", "cached"}
            && out["state"] == OptionalString(state)
            && out["city"] == (if "name" in result then result["name"] else JNull)
            && out["country"] == (if "country" in result then result["country"] else JNull)
            && out["latitude"] == (if "lat" in result then result["lat"] else JNull)
            && out["longitude"] == (if "lon" in result then result["lon"] else JNull)
            && out["cached"] == JBool(true)
  {
  }

  /** An empty state leaves the query without a state but is still echoed
      as the empty string. */
  lemma EmptyStateEchoed(result: Record)
    ensures Project(result, Some(""))["state"] == JStr("")
    ensures Query("Austin", Some(""), "US") == Query("Austin", None, "US")
  {
  }
}
