# MTAPI HTTP wrapper: verified model of its pure logic

MTAPI serves the MTA's real-time subway feed as a JSON API. Its Flask wrapper,
`app.py`, holds a little self-contained logic on top of the feed engine. This
project models that logic in Dafny and proves what it computes:

- **Envelope freshness** (`_envelope_reduce`, `_make_envelope`). Every station
  result list goes out in an envelope whose `updated` value comes from a
  `functools.reduce` fold over the list. The fold is seeded with the first
  entry. It keeps the entry with the *oldest* `last_update`. It skips entries
  whose timestamp is null. On equal timestamps it keeps the later entry. The
  value is absent for an empty list, or when no entry has a timestamp.
  Module `Envelope`, file `envelope.dfy`.
- **`/api/stations` dispatch** (`stations_by_filter`). The optional `query`,
  `latitude` and `longitude` parameters and the `limit` resolve to exactly one
  of three lookups. Module `StationsRequest`, file `stations_request.dfy`.
- **Id list splitting** (`by_index`). The `<station_id>` path segment is split
  the way Python's `str.split(",")` splits it. Module `IdList`, file `id_list.dfy`.
- **Route listing** (`routes`). The route set is emitted by `sorted(...)`, using
  Python's code-point ordering of strings. Modules `StringOrder` and
  `RouteListing`, files `string_order.dfy` and `route_listing.dfy`.

`Wrappers` (`wrappers.dfy`) defines the `Option` type used for missing
parameters and null timestamps.

Modelling choices:

- A `last_update` is an opaque, totally ordered instant, written as an `int`.
  Every present value counts as true in the reducer's truth tests, as any
  `datetime` does.
- A request parameter counts as given when it is present and non-empty. This
  is the truth value of a Python string.
- The `limit` parameter is taken already parsed, as an optional integer. It
  defaults to 10.
- Latitude and longitude stay unparsed strings inside the point request.

## Model

| member | source | states |
|---|---|---|
| `Envelope.EnvelopeReduce` | app.py:148-154 | The result is one of the two arguments. A null timestamp never wins over a present one, in either argument order. When both are present the result's timestamp is the older of the two. A null first argument always gives the second argument. A present first and null second argument gives the first. On equal timestamps, both null included, the second argument wins. |
| `Envelope.EnvelopeReduceStampSymmetric` | app.py:148-154 | The timestamp that survives one reduction step is the same whichever argument comes first. |
| `Envelope.FoldLeft` | app.py:160 | `functools.reduce` with an explicit seed: the function is applied to the accumulator and each element, left to right. Its contract is stated by `Envelope.FoldLeftSnoc` and `Envelope.FoldReduceIsAnInput`. |
| `Envelope.FoldLeftSnoc` | app.py:160 | Folding over a list with one more element applies the function once more to the earlier result and that element. |
| `Envelope.FoldReduceIsAnInput` | app.py:148-160 | Folding the reducer from a seed over a list ends on the seed or on an element of the list. |
| `Envelope.Reduce` | app.py:160 | `reduce(_envelope_reduce, data)` with no initial value: the fold is seeded with `data[0]` and runs over the rest. The result is always an element of the list. Which element it is is stated by `Envelope.ReduceChoosesLastOldest`. |
| `Envelope.ReduceSnoc` | app.py:160 | `reduce` is a left fold: reducing a list with one more entry reduces the earlier entries' result with that entry. |
| `Envelope.ReduceChoosesLastOldest` | app.py:148-160 | The fold settles on the last entry whose timestamp is the oldest present one. When no entry has a timestamp, it settles on the list's last entry. |
| `Envelope.MakeEnvelope` | app.py:157-160 | The envelope holds the result list unchanged. `updated` is null for an empty list, and otherwise is the timestamp of the folded entry, so any non-null `updated` is the timestamp of some entry. Its full meaning is stated by `Envelope.MakeEnvelopeAbsentIff` and `Envelope.MakeEnvelopeOldest`. |
| `Envelope.MakeEnvelopeAbsentIff` | app.py:157-160 | `updated` is null if and only if no entry has a timestamp. This covers the empty list. |
| `Envelope.MakeEnvelopeOldest` | app.py:148-160 | When some entry has a timestamp, `updated` is one of the entries' timestamps. It is no later than any present timestamp, so the oldest wins. |
| `Envelope.MakeEnvelopeOrderIndependent` | app.py:157-160 | Rearranging the result list does not change `updated`. |
| `StationsRequest.Dispatch` | app.py:98-109 | A non-empty `query` gives a text search for that query. Otherwise a non-empty latitude and longitude give a point search on those strings. Otherwise the request lists stations. Every kind carries the given limit, or 10 when none is given. |
| `StationsRequest.QueryOverridesCoordinates` | app.py:103-104 | With a non-empty `query`, the coordinates have no effect on the lookup. |
| `StationsRequest.EmptyIsAbsent` | app.py:103-105 | An empty `query`, `latitude` or `longitude` resolves exactly as a missing one does. |
| `StationsRequest.OneCoordinateLists` | app.py:105-109 | With no query and only one coordinate, the request lists stations. |
| `IdList.SplitOnComma` | app.py:134 | Splitting yields at least one id. No id contains a comma. Joining the ids with `,` gives back the segment. |
| `IdList.SplitCountsCommas` | app.py:134 | There is exactly one more id than the segment has commas. |
| `IdList.SplitCommaFreePrefix` | app.py:134 | A comma-free prefix becomes part of the first id of what follows it. |
| `IdList.SplitJoin` | app.py:134 | Splitting recovers any non-empty list of comma-free ids from their comma-joined segment. |
| `StringOrder.Le` | app.py:145 | Python's ordering of strings, used by `sorted`: lexicographic by code point, with a proper prefix before the longer string. Its contract states that a prefix is below every string it begins. `StringOrder.LeReflexive`, `StringOrder.LeAntisymmetric`, `StringOrder.LeTransitive` and `StringOrder.LeTotal` prove it is a total order. |
| `StringOrder.LeReflexive` | app.py:145 | Every string is below or equal to itself. |
| `StringOrder.LeAntisymmetric` | app.py:145 | Two strings each below or equal to the other are equal. |
| `StringOrder.LeTransitive` | app.py:145 | The order is transitive. |
| `StringOrder.LeTotal` | app.py:145 | Any two strings are comparable. |
| `RouteListing.Least` | app.py:145 | The chosen route id belongs to the set and is no greater than any other id in it. |
| `RouteListing.SortedRoutes` | app.py:145 | The listing is strictly ascending in Python's string order. It holds exactly the set's route ids, each once. |
| `RouteListing.SortedRoutesUnique` | app.py:145 | Any strictly ascending sequence holding exactly the set's ids equals the listing, so the sorted order is unique. |
| `RouteListing.Routes` | app.py:145 | The routes response lists every route id once, in ascending order, with no additions. Its `updated` value is the cache's own last update, passed through unchanged. |

## Left out

- The feed engine `Mtapi` (`mtapi/mtapi.py`, created at app.py:58-65) is not part of this model. This covers fetching, protobuf decoding, the refresh thread, the station catalogue, the haversine search and route or id lookup. Its results enter the model as values: the result list of the envelope, and the route set and last update of the routes response.
- Flask plumbing is framework behaviour and is not modelled: routing, `jsonify`, `abort(404)` on a `KeyError`, and the 400 response built from any exception in `stations_by_filter` (app.py:114-118, 127-139).
- `cross_origin` (app.py:68-80) only sets a response header from configuration.
- Configuration loading and logging setup (app.py:21-40) are I/O.
- `CustomJSONEncoder` and the `json.dumps`/`json.loads` round trip (app.py:43-56, 161-163) are serialisation formatting done by library calls. The model's envelope holds the list and the timestamp as values.
- Parsing `limit` with `int(...)` and the coordinates with `float(...)` (app.py:101, 106) is library parsing, and the coordinates are floats. A `limit` that does not parse makes the service answer 400 whatever the other parameters are; the model starts from the parsed value.
- Envelope.EnvelopeReduce: a timestamp stored as a number would be false in Python when it is 0. The model assumes `datetime` timestamps, which are always true, so every present timestamp counts.
