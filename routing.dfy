/**
 * Routing: an ordered list of routing tables plus the global forwarding
 * switches. `routes` is the concatenation of the tables' routes.
 */
module Routing {
  import opened Wrappers

  datatype Route = Route(destination: string, gateway: Option<string>, interface: Option<string>, options: string)
  datatype RoutingTable = RoutingTable(routes: seq<Route>)
  datatype Routing = Routing(tables: seq<RoutingTable>, forwardIpv4: bool, forwardIpv6: bool)

  /** `Routing#routes`: table order first, then the order within a table. */
  function Routes(tables: seq<RoutingTable>): seq<Route>
  {
    if tables == [] then [] else tables[0].routes + Routes(tables[1..])
  }

  /** A route is listed iff some table holds it. */
  lemma {:induction false} RoutesMembership(tables: seq<RoutingTable>, r: Route)
    ensures r in Routes(tables) <==> exists k :: 0 <= k < |tables| && r in tables[k].routes
  {
    if tables != [] {
      RoutesMembership(tables[1..], r);
      if r in Routes(tables[1..]) {
        var k :| 0 <= k < |tables[1..]| && r in tables[1..][k].routes;
        assert r in tables[k + 1].routes;
      }
      if exists k :: 0 <= k < |tables| && r in tables[k].routes {
        var k :| 0 <= k < |tables| && r in tables[k].routes;
        if k > 0 {
          assert tables[1..][k - 1] == tables[k];
        }
      }
    }
  }

  /** The routes of consecutive table lists concatenate. */
  lemma {:induction false} RoutesAppend(a: seq<RoutingTable>, b: seq<RoutingTable>)
    ensures Routes(a + b) == Routes(a) + Routes(b)
  {
    if a == [] {
      assert a + b == b;
    } else {
      assert (a + b)[1..] == a[1..] + b;
      RoutesAppend(a[1..], b);
    }
  }

  /** Two tables with one route each list both routes, first table first. */
  lemma RoutesOfTwoTables(r1: Route, r2: Route)
    ensures Routes([RoutingTable([r1]), RoutingTable([r2])]) == [r1, r2]
  {
    var ts := [RoutingTable([r1]), RoutingTable([r2])];
    assert ts[1..] == [RoutingTable([r2])];
    assert ts[1..][1..] == [];
    assert Routes(ts[1..]) == [r2] + Routes([]);
  }
}
