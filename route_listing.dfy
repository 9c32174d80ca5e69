/**
 * The `/api/routes` response (`routes` in app.py): the set of route ids served
 * by the catalogue, emitted by `sorted(...)` in ascending order, together with
 * the cache's own last-update instant.
 */
module RouteListing {
  import opened Wrappers
  import opened StringOrder
  import Envelope

  /** The response body: the sorted route ids and the cache's freshness. */
  datatype RoutesBody = RoutesBody(data: seq<string>, updated: Option<Envelope.Instant>)

  /** Each id comes before the next, with no repeats. */
  ghost predicate StrictlyAscending(r: seq<string>) {
    forall i, j :: 0 <= i < j < |r| ==> Le(r[i], r[j]) && r[i] != r[j]
  }

  /** The least route id of a non-empty set. */
  function Least(routes: set<string>): (m: string)
    requires routes != {}
    ensures m in routes
    ensures forall y :: y in routes ==> Le(m, y)
  {
    LeastExists(routes);
    LeAntisymmetricAll();
    var m :| m in routes && forall y :: y in routes ==> Le(m, y);
    m
  }

  lemma LeAntisymmetricAll()
    ensures forall a, b :: Le(a, b) && Le(b, a) ==> a == b
  {
    forall a, b | Le(a, b) && Le(b, a) ensures a == b {
      LeAntisymmetric(a, b);
    }
  }

  lemma {:induction false} LeastExists(routes: set<string>)
    requires routes != {}
    ensures exists m :: m in routes && forall y :: y in routes ==> Le(m, y)
    decreases |routes|
  {
    var x :| x in routes;
    var rest := routes - {x};
    if rest == {} {
      forall y | y in routes ensures Le(x, y) {
        assert y !in rest;
        LeReflexive(x);
      }
    } else {
      LeastExists(rest);
      var m' :| m' in rest && forall y :: y in rest ==> Le(m', y);
      if Le(x, m') {
        forall y | y in routes ensures Le(x, y) {
          if y == x { LeReflexive(x); } else { assert y in rest; LeTransitive(x, m', y); }
        }
      } else {
        LeTotal(x, m');
        forall y | y in routes ensures Le(m', y) {
          if y != x { assert y in rest; }
        }
        assert m' in routes;
      }
    }
  }

  /** Putting an id before an ascending sequence of larger ids keeps it ascending. */
  lemma ConsAscending(m: string, tail: seq<string>)
    requires StrictlyAscending(tail)
    requires forall j :: 0 <= j < |tail| ==> Le(m, tail[j]) && m != tail[j]
    ensures StrictlyAscending([m] + tail)
  {
  }

  /** `sorted(routes)`: strictly ascending, holding exactly the set's ids, one each. */
  function SortedRoutes(routes: set<string>): (r: seq<string>)
    ensures StrictlyAscending(r)
    ensures forall x :: x in r <==> x in routes
    ensures |r| == |routes|
    decreases |routes|
  {
    if routes == {} then
      []
    else
      var m := Least(routes);
      var tail := SortedRoutes(routes - {m});
      assert forall j :: 0 <= j < |tail| ==> tail[j] in routes - {m};
      ConsAscending(m, tail);
      [m] + tail
  }

  /** Ascending order with exactly the set's ids determines the sequence: `sorted` has no other choice. */
  lemma {:induction false} SortedRoutesUnique(routes: set<string>, r: seq<string>)
    requires StrictlyAscending(r)
    requires forall x :: x in r <==> x in routes
    ensures r == SortedRoutes(routes)
    decreases |routes|
  {
    if r == [] {
      assert routes == {} by { assert forall x :: x !in routes; }
    } else {
      assert r[0] in routes;
      var m := Least(routes);
      assert r[0] in routes;
      assert Le(r[0], m) by {
        var j :| 0 <= j < |r| && r[j] == m;
        if j == 0 { LeReflexive(m); }
      }
      LeAntisymmetric(r[0], m);
      var rest := routes - {m};
      forall x ensures x in r[1..] <==> x in rest {
        if x in r[1..] {
          var j :| 0 <= j < |r[1..]| && r[1..][j] == x;
          assert r[j + 1] == x;
        }
        if x in rest {
          var j :| 0 <= j < |r| && r[j] == x;
          assert j != 0;
          assert r[1..][j - 1] == x;
        }
      }
      SortedRoutesUnique(rest, r[1..]);
      assert r == [r[0]] + r[1..];
    }
  }

  /** The response: the routes in ascending order and the cache's last update as given. */
  function Routes(routes: set<string>, lastUpdate: Option<Envelope.Instant>): (body: RoutesBody)
    ensures StrictlyAscending(body.data)
    ensures forall x :: x in body.data <==> x in routes
    ensures |body.data| == |routes|
    ensures body.updated == lastUpdate
  {
    RoutesBody(SortedRoutes(routes), lastUpdate)
  }
}
