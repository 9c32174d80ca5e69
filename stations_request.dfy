/**
 * How `/api/stations` turns its optional `query`, `latitude`, `longitude` and
 * `limit` parameters into exactly one lookup (`stations_by_filter` in app.py).
 * A parameter counts as given when it is present and non-empty, as with a
 * Python string's truth value.
 */
module StationsRequest {
  import opened Wrappers

  /** The number of stations returned when no `limit` is given. */
  const DefaultLimit: int := 10

  /** The one lookup a request resolves to; the coordinates stay unparsed strings. */
  datatype Request =
    | TextQuery(q: string, limit: int)
    | PointQuery(latStr: string, lonStr: string, limit: int)
    | ListAll(limit: int)

  /** A query parameter's truth value: present and not the empty string. */
  predicate Given(arg: Option<string>) {
    arg.Some? && arg.value != ""
  }

  /** `limitArg` is the already parsed `limit` parameter, absent when the request has none. */
  function Dispatch(query: Option<string>, latitude: Option<string>, longitude: Option<string>,
                    limitArg: Option<int>): (r: Request)
    ensures r.limit == limitArg.GetOr(DefaultLimit)
    ensures r.TextQuery? <==> Given(query)
    ensures r.TextQuery? ==> r.q == query.value
    ensures r.PointQuery? <==> !Given(query) && Given(latitude) && Given(longitude)
    ensures r.PointQuery? ==> r.latStr == latitude.value && r.lonStr == longitude.value
    ensures r.ListAll? <==> !Given(query) && !(Given(latitude) && Given(longitude))
  {
    var limit := limitArg.GetOr(DefaultLimit);
    if Given(query) then
      TextQuery(query.value, limit)
    else if Given(latitude) && Given(longitude) then
      PointQuery(latitude.value, longitude.value, limit)
    else
      ListAll(limit)
  }

  /** A non-empty text query wins whatever coordinates come with it. */
  lemma QueryOverridesCoordinates(query: Option<string>, lat1: Option<string>, lon1: Option<string>,
                                  lat2: Option<string>, lon2: Option<string>, limitArg: Option<int>)
    requires Given(query)
    ensures Dispatch(query, lat1, lon1, limitArg) == Dispatch(query, lat2, lon2, limitArg)
                == TextQuery(query.value, limitArg.GetOr(DefaultLimit))
  {
  }

  /** An empty parameter is treated exactly like a missing one. */
  lemma EmptyIsAbsent(query: Option<string>, latitude: Option<string>, longitude: Option<string>,
                      limitArg: Option<int>)
    ensures Dispatch(Some(""), latitude, longitude, limitArg) == Dispatch(None, latitude, longitude, limitArg)
    ensures Dispatch(query, Some(""), longitude, limitArg) == Dispatch(query, None, longitude, limitArg)
    ensures Dispatch(query, latitude, Some(""), limitArg) == Dispatch(query, latitude, None, limitArg)
  {
  }

  /** Only one coordinate is not a point search: the request lists stations instead. */
  lemma OneCoordinateLists(query: Option<string>, coord: Option<string>, limitArg: Option<int>)
    requires !Given(query)
    ensures Dispatch(query, coord, None, limitArg) == ListAll(limitArg.GetOr(DefaultLimit))
    ensures Dispatch(query, None, coord, limitArg) == ListAll(limitArg.GetOr(DefaultLimit))
  {
  }
}
