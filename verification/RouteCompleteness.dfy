/** Which routes the search finds and which it misses (network/routing.py, DijkstraRoutingStrategy). */
module RouteCompleteness {
  import opened Bytes
  import opened Channel
  import opened Network
  import opened Pricing
  import opened RouteSearch

  // ----- walks and shortest paths

  lemma {:induction false} ShortestExists(p: Problem, walk: seq<string>, v: string) returns (path: seq<string>)
    requires OffTarget(p, walk, v)
    ensures Shortest(p, path, v) && |path| <= |walk|
    decreases |walk|
  {
    hide OffTarget;
    if shorter :| OffTarget(p, shorter, v) && |shorter| < |walk| {
      path := ShortestExists(p, shorter, v);
    } else {
      path := walk;
    }
  }

  /** Leaving out a loop of a walk. */
  lemma Splice(p: Problem, path: seq<string>, v: string, i: nat, j: nat)
    requires OffTarget(p, path, v) && i < j < |path| && path[i] == path[j]
    ensures OffTarget(p, path[..i] + path[j..], v)
  {
    var walk := path[..i] + path[j..];
    forall k | 0 <= k < |walk| - 1
      ensures Eligible(p.net, p.request.amount, walk[k], walk[k + 1])
    {
      if k < i {
        assert Eligible(p.net, p.request.amount, path[k], path[k + 1]);
      } else {
        var l := k - i + j;
        assert Eligible(p.net, p.request.amount, path[l], path[l + 1]);
      }
    }
  }

  lemma ShortestSimple(p: Problem, path: seq<string>, v: string)
    requires Shortest(p, path, v)
    ensures Simple(path)
  {
    forall i, j | 0 <= i < j < |path|
      ensures path[i] != path[j]
    {
      if path[i] == path[j] {
        Splice(p, path, v, i, j);
        assert false;
      }
    }
  }

  /** A walk to the target passes a neighbour of the target before it first gets there. */
  lemma {:induction false} CutAtTarget(p: Problem, walk: seq<string>) returns (prefix: seq<string>, v: string)
    requires IsWalk(p.net, p.request.amount, walk) && Connects(walk, p.source, p.target) && p.source != p.target
    ensures OffTarget(p, prefix, v) && Eligible(p.net, p.request.amount, v, p.target) && |prefix| < |walk|
    decreases |walk|
  {
    var n := |walk|;
    FrontOff(p, walk);
    prefix := walk[..n - 1];
    if p.target in prefix {
      var i :| 0 <= i < |prefix| && prefix[i] == p.target;
      var first := walk[..i + 1];
      forall k | 0 <= k < |first| - 1
        ensures Eligible(p.net, p.request.amount, first[k], first[k + 1])
      {
        assert Eligible(p.net, p.request.amount, walk[k], walk[k + 1]);
      }
      prefix, v := CutAtTarget(p, first);
    } else {
      v := walk[n - 2];
    }
  }

  /** A shortest path, continued to the target, is a simple walk from source to target. */
  lemma OnToTarget(p: Problem, path: seq<string>, v: string)
    requires Shortest(p, path, v) && Eligible(p.net, p.request.amount, v, p.target)
    ensures var whole := path + [p.target];
      IsWalk(p.net, p.request.amount, whole) && Connects(whole, p.source, p.target) && Simple(whole)
  {
    ShortestSimple(p, path, v);
    var whole := path + [p.target];
    forall i | 0 <= i < |whole| - 1
      ensures Eligible(p.net, p.request.amount, whole[i], whole[i + 1])
    {
      if i < |path| - 1 {
        assert Eligible(p.net, p.request.amount, path[i], path[i + 1]);
      }
    }
  }

  /** Every node of a shortest path is at its fewest-hop distance from the source. */
  lemma NodesNearest(p: Problem, path: seq<string>, v: string, j: nat)
    requires Shortest(p, path, v) && j < |path|
    ensures Shortest(p, path[..j + 1], path[j])
  {
    var front := path[..j + 1];
    forall k | 0 <= k < |front| - 1
      ensures Eligible(p.net, p.request.amount, front[k], front[k + 1])
    {
      assert Eligible(p.net, p.request.amount, path[k], path[k + 1]);
    }
    forall walk | OffTarget(p, walk, path[j])
      ensures j + 1 <= |walk|
    {
      Reroute(p, path, v, j, walk);
    }
  }

  /** Another way to the middle of a walk. */
  lemma Reroute(p: Problem, path: seq<string>, v: string, j: nat, walk: seq<string>)
    requires OffTarget(p, path, v) && j < |path| && OffTarget(p, walk, path[j])
    ensures OffTarget(p, walk + path[j + 1..], v)
  {
    var whole, n := walk + path[j + 1..], |walk|;
    forall k | 0 <= k < |whole| - 1
      ensures Eligible(p.net, p.request.amount, whole[k], whole[k + 1])
    {
      if k < n - 1 {
        assert Eligible(p.net, p.request.amount, walk[k], walk[k + 1]);
      } else {
        var l := k - n + 1 + j;
        assert Eligible(p.net, p.request.amount, path[l], path[l + 1]);
      }
    }
  }

  // ----- unique shortest paths: exactly which routes are found

  ghost predicate UniqueShortest(p: Problem) {
    forall a, b, v :: Shortest(p, a, v) && Shortest(p, b, v) && Eligible(p.net, p.request.amount, v, p.target) ==> a == b
  }

  /** Where shortest paths to the target's neighbours are unique, a route is found exactly when one of them can pay the fees
      on to the target. */
  lemma UniqueDecides(p: Problem, route: Option<PaymentRoute>)
    requires IsAnswer(p, route) && Present(p) && p.source != p.target && UniqueShortest(p)
    ensures route.Some? <==>
      exists path, v :: Shortest(p, path, v) && Eligible(p.net, p.request.amount, v, p.target) && PricedOn(p, path).Some?
  {
    hide Shortest, RouteOver;
    if route.Some? {
      var taken := TakenPath(p.source, route.value);
      var n := |taken|;
      assert Eligible(p.net, p.request.amount, taken[n - 2], taken[n - 2 + 1]);
      assert taken == taken[..n - 1] + [p.target];
      assert Shortest(p, taken[..n - 1], taken[n - 2]) && PricedOn(p, taken[..n - 1]).Some?;
    } else {
      forall path, v | Shortest(p, path, v) && Eligible(p.net, p.request.amount, v, p.target)
        ensures PricedOn(p, path).None?
      {
        assert Short(p, v);
      }
    }
  }

  // ----- when every path can pay its fees

  /** Every simple path from source to target with enough balance for the payment can pay its fees too. */
  ghost predicate AllViable(p: Problem) {
    forall path :: IsWalk(p.net, p.request.amount, path) && Connects(path, p.source, p.target) && Simple(path) ==>
      RouteOver(p.net, path, p.request).Some?
  }

  lemma NoneShort(p: Problem, v: string)
    requires AllViable(p) && Eligible(p.net, p.request.amount, v, p.target)
    ensures !Short(p, v)
  {
    hide Shortest, RouteOver;
    forall path | Shortest(p, path, v)
      ensures PricedOn(p, path).Some?
    {
      OnToTarget(p, path, v);
    }
  }

  /** A walk to the target forces an answer that is no longer. */
  lemma AnswerWithin(p: Problem, route: Option<PaymentRoute>, walk: seq<string>)
    requires IsAnswer(p, route) && Present(p) && AllViable(p)
    requires IsWalk(p.net, p.request.amount, walk) && Connects(walk, p.source, p.target)
    ensures route.Some? && |route.value.hops| <= |walk| - 1
  {
    hide AllViable, Shortest, Short, RouteOver, OffTarget;
    if p.source == p.target {
      PathTaken(p, TakenPath(p.source, route.value), route.value);
    } else {
      var prefix, v := CutAtTarget(p, walk);
      var path := ShortestExists(p, prefix, v);
      NoneShort(p, v);
    }
  }

  /** If every path can pay its fees, a route is found exactly when the target is reachable over edges with enough balance,
      and no walk is shorter. */
  lemma ViableFound(p: Problem, route: Option<PaymentRoute>)
    requires IsAnswer(p, route) && Present(p) && AllViable(p)
    ensures route.Some? <==> Reachable(p.net, p.request.amount, p.source, p.target)
    ensures route.Some? ==> forall walk :: IsWalk(p.net, p.request.amount, walk) && Connects(walk, p.source, p.target) ==>
      |route.value.hops| <= |walk| - 1
  {
    hide AllViable, RouteOver, OverShortest, NearerShort;
    forall walk | IsWalk(p.net, p.request.amount, walk) && Connects(walk, p.source, p.target)
      ensures route.Some? && |route.value.hops| <= |walk| - 1
    {
      AnswerWithin(p, route, walk);
    }
  }

  /** Without fees every path is viable. */
  lemma FreeFound(p: Problem, route: Option<PaymentRoute>)
    requires IsAnswer(p, route) && Present(p) && p.request.fees == FeePolicy(0, 0)
    ensures route.Some? <==> Reachable(p.net, p.request.amount, p.source, p.target)
    ensures route.Some? ==> forall walk :: IsWalk(p.net, p.request.amount, walk) && Connects(walk, p.source, p.target) ==>
      |route.value.hops| <= |walk| - 1
  {
    hide IsAnswer;
    forall path | IsWalk(p.net, p.request.amount, path) && Connects(path, p.source, p.target) && Simple(path)
      ensures RouteOver(p.net, path, p.request).Some?
    {
      FreePathViable(p.net, path, p.request, 0);
    }
    ViableFound(p, route);
  }

  // ----- a condition on balances

  /** Channels join known nodes only. */
  predicate Closed(net: Net) {
    forall e :: e in net.chans ==> e.0 in net.nodes && e.1 in net.nodes
  }

  lemma RegisteredClosed(net: Net, c: Chan)
    requires Closed(net)
    ensures Closed(WithChannel(net, c))
  {
    var after := WithChannel(net, c);
    forall e | e in after.chans
      ensures e.0 in after.nodes && e.1 in after.nodes
    {
      assert e in net.chans || e == (c.sender, c.receiver) || e == (c.receiver, c.sender);
    }
  }

  lemma {:induction false} SimpleFits(path: seq<string>, nodes: set<string>)
    requires Simple(path) && forall i :: 0 <= i < |path| ==> path[i] in nodes
    ensures |path| <= |nodes|
  {
    if path != [] {
      SimpleFits(path[1..], nodes - {path[0]});
    }
  }

  predicate ChargesOnly(r: Request) {
    r.amount >= 0 && r.fees.base >= 0 && r.fees.ratePpm >= 0
  }

  lemma {:induction false} ChargedGrows(r: Request, j: nat, k: nat)
    requires ChargesOnly(r) && j <= k
    ensures 0 <= Charged(r.fees, r.amount, j) <= Charged(r.fees, r.amount, k)
    decreases k
  {
    if j < k {
      ChargedGrows(r, j, k - 1);
      FeeMonotone(r.fees, 0, Charged(r.fees, r.amount, k - 1));
    } else if k > 0 {
      ChargedGrows(r, k - 1, k - 1);
      FeeMonotone(r.fees, 0, Charged(r.fees, r.amount, k - 1));
    }
  }

  /** Every edge that holds the payment holds it with the fees of `k` charged hops. */
  predicate CoversFees(net: Net, r: Request, k: nat) {
    forall e :: e in net.chans && Capacity(net, e.0, e.1) >= r.amount ==> Capacity(net, e.0, e.1) >= Charged(r.fees, r.amount, k)
  }

  lemma {:induction false} CoveredPrice(net: Net, path: seq<string>, r: Request, k: nat, i: nat)
    requires i < |path| <= k + 2 && IsWalk(net, r.amount, path) && Simple(path)
    requires ChargesOnly(r) && CoversFees(net, r, k)
    ensures Price(net, path, r, i).Some?
    decreases |path| - i
  {
    hide Capacity, Fee;
    var n := |path|;
    if i < n - 1 {
      CoveredPrice(net, path, r, k, i + 1);
      HopAmounts(net, path, r, i + 1);
      ChargedGrows(r, n - 2 - i, k);
      assert Eligible(net, r.amount, path[i], path[i + 1]);
      var e := (path[i], path[i + 1]);
      assert Capacity(net, e.0, e.1) >= Charged(r.fees, r.amount, k);
    }
  }

  /** The condition a caller can check: with charges that are not negative, every edge that holds the payment holds it with
      the fees of a longest possible path. */
  ghost predicate Covered(p: Problem) {
    Closed(p.net) && ChargesOnly(p.request) && CoversFees(p.net, p.request, if |p.net.nodes| >= 2 then |p.net.nodes| - 2 else 0)
  }

  lemma CoveredViable(p: Problem)
    requires Covered(p) && Present(p)
    ensures AllViable(p)
  {
    hide Capacity, CoversFees, Price;
    var k := if |p.net.nodes| >= 2 then |p.net.nodes| - 2 else 0;
    forall path | IsWalk(p.net, p.request.amount, path) && Connects(path, p.source, p.target) && Simple(path)
      ensures RouteOver(p.net, path, p.request).Some?
    {
      forall i | 0 <= i < |path|
        ensures path[i] in p.net.nodes
      {
        if i > 0 {
          assert Eligible(p.net, p.request.amount, path[i - 1], path[i - 1 + 1]);
          assert (path[i - 1], path[i]) in p.net.chans;
        }
      }
      SimpleFits(path, p.net.nodes);
      CoveredPrice(p.net, path, p.request, k, 0);
    }
  }

  /** Under that condition the search is complete and finds a route with the fewest hops, for every fee policy. */
  lemma CoveredFound(p: Problem, route: Option<PaymentRoute>)
    requires IsAnswer(p, route) && Present(p) && Covered(p)
    ensures route.Some? <==> Reachable(p.net, p.request.amount, p.source, p.target)
    ensures route.Some? ==> forall walk :: IsWalk(p.net, p.request.amount, walk) && Connects(walk, p.source, p.target) ==>
      |route.value.hops| <= |walk| - 1
  {
    CoveredViable(p);
    ViableFound(p, route);
  }

  // ----- a route that is missed

  /** The graph with one more channel, opened by `u`. */
  function Joined(net: Net, u: string, v: string, capacity: int): (r: Net) {
    WithChannel(net, Opened(u, v, capacity))
  }

  /** S - A - X - T, where S cannot pay both fees to A, and S - B - C - X - T, where everyone can pay. */
  function Detour(): (net: Net) {
    var upper := Joined(Joined(Joined(Net({}, map[]), "S", "A", 101), "A", "X", 1000), "X", "T", 1000);
    Joined(Joined(Joined(upper, "S", "B", 1000), "B", "C", 1000), "C", "X", 1000)
  }

  function DetourRequest(): (r: Request) {
    Request(100, 500, 40, FeePolicy(1, 0))
  }

  lemma JoinedCapacity(net: Net, a: string, b: string, capacity: int, u: string, v: string)
    requires a != b
    ensures Capacity(Joined(net, a, b, capacity), u, v) ==
      if u == a && v == b then capacity else if u == b && v == a then 0 else Capacity(net, u, v)
    ensures (u, v) in Joined(net, a, b, capacity).chans <==> (u == a && v == b) || (u == b && v == a) || (u, v) in net.chans
  {
  }

  /** The balance from `u` towards `v` on the detour graph. */
  function DetourBalance(u: string, v: string): (c: int) {
    if u == "S" && v == "A" then 101
    else if (u == "A" && v == "X") || (u == "X" && v == "T") || (u == "S" && v == "B") || (u == "B" && v == "C") || (u == "C" && v == "X")
    then 1000
    else 0
  }

  lemma DetourEdges(u: string, v: string)
    ensures Capacity(Detour(), u, v) == DetourBalance(u, v)
    ensures Eligible(Detour(), 100, u, v) <==> DetourBalance(u, v) > 0
  {
    hide Joined, Capacity;
    var one := Joined(Net({}, map[]), "S", "A", 101);
    var two := Joined(one, "A", "X", 1000);
    var three := Joined(two, "X", "T", 1000);
    var four := Joined(three, "S", "B", 1000);
    var five := Joined(four, "B", "C", 1000);
    EmptyCapacity(u, v);
    JoinedCapacity(Net({}, map[]), "S", "A", 101, u, v);
    JoinedCapacity(one, "A", "X", 1000, u, v);
    JoinedCapacity(two, "X", "T", 1000, u, v);
    JoinedCapacity(three, "S", "B", 1000, u, v);
    JoinedCapacity(four, "B", "C", 1000, u, v);
    JoinedCapacity(five, "C", "X", 1000, u, v);
  }

  lemma EmptyCapacity(u: string, v: string)
    ensures Capacity(Net({}, map[]), u, v) == 0
  {
  }

  lemma DetourShort()
    ensures RouteOver(Detour(), ["S", "A", "X", "T"], DetourRequest()).None?
  {
    hide Detour, Capacity;
    DetourEdges("S", "A");
    DetourEdges("A", "X");
    DetourEdges("X", "T");
    var net, r, path := Detour(), DetourRequest(), ["S", "A", "X", "T"];
    assert Price(net, path, r, 3).value.amount == 100;
    assert Price(net, path, r, 2).value.amount == 100;
    assert Price(net, path, r, 1).value.amount == 101;
  }

  lemma DetourPays()
    ensures RouteOver(Detour(), ["S", "B", "C", "X", "T"], DetourRequest()).Some?
  {
    hide Detour, Capacity;
    DetourEdges("X", "T");
    DetourEdges("S", "B");
    DetourEdges("B", "C");
    DetourEdges("C", "X");
    var net, r, path := Detour(), DetourRequest(), ["S", "B", "C", "X", "T"];
    assert Price(net, path, r, 4).value.amount == 100;
    assert Price(net, path, r, 3).value.amount == 100;
    assert Price(net, path, r, 2).value.amount == 101;
    assert Price(net, path, r, 1).value.amount == 102;
  }

  /** The only walk of at most three nodes from S to X. */
  lemma DetourNearest(walk: seq<string>)
    requires IsWalk(Detour(), 100, walk) && Connects(walk, "S", "X") && |walk| <= 3
    ensures walk == ["S", "A", "X"]
  {
    hide Detour;
    assert Eligible(Detour(), 100, walk[0], walk[0 + 1]);
    DetourEdges(walk[0], walk[1]);
    if |walk| == 3 {
      assert Eligible(Detour(), 100, walk[1], walk[1 + 1]);
      DetourEdges(walk[1], walk[2]);
    }
  }

  /** The only route the search could return. */
  lemma DetourTaken(route: PaymentRoute)
    requires IsAnswer(Problem(Detour(), "S", "T", DetourRequest()), Some(route))
    ensures RouteOver(Detour(), ["S", "A", "X", "T"], DetourRequest()) == Some(route)
  {
    hide Detour, RouteOver, Eligible, Capacity, NearerShort;
    var p := Problem(Detour(), "S", "T", DetourRequest());
    var taken := TakenPath("S", route);
    var n := |taken|;
    var prefix := taken[..n - 1];
    assert Eligible(p.net, 100, taken[n - 2], taken[n - 2 + 1]);
    DetourEdges(taken[n - 2], "T");
    DetourWalk(["S", "A", "X"]);
    assert OffTarget(p, ["S", "A", "X"], "X");
    DetourNearest(prefix);
    assert taken == prefix + ["T"];
    assert taken == ["S", "A", "X", "T"];
  }

  /** The search can miss a route: on this graph it returns none, although one can pay its fees. */
  lemma MissedRoute(route: Option<PaymentRoute>)
    requires IsAnswer(Problem(Detour(), "S", "T", DetourRequest()), route)
    ensures route.None?
    ensures var path := ["S", "B", "C", "X", "T"];
      IsWalk(Detour(), 100, path) && Connects(path, "S", "T") && Simple(path) && RouteOver(Detour(), path, DetourRequest()).Some?
  {
    hide Detour, RouteOver, Eligible, IsAnswer;
    DetourPays();
    DetourWalk(["S", "B", "C", "X", "T"]);
    if route.Some? {
      DetourTaken(route.value);
      DetourShort();
      assert false;
    }
  }

  lemma DetourWalk(walk: seq<string>)
    requires walk == ["S", "B", "C", "X", "T"] || walk == ["S", "A", "X"]
    ensures IsWalk(Detour(), 100, walk)
  {
    hide Detour, Eligible;
    forall i | 0 <= i < |walk| - 1
      ensures Eligible(Detour(), 100, walk[i], walk[i + 1])
    {
      DetourEdges(walk[i], walk[i + 1]);
    }
  }
}
