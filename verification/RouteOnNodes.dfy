/** A found route carried out by the nodes themselves, on the channel objects the graph and the nodes share. */
module RouteOnNodes {
  import opened Bytes
  import opened Channel
  import opened Network
  import opened Pricing
  import opened RouteSearch
  import opened RouteExecution
  import opened RouteWealth
  import opened Node

  type Nodes = map<string, LightningNode>

  type ChannelEdges = map<(string, string), PaymentChannel>

  type Holdings = map<string, map<string, PaymentChannel>>

  /** Who holds which channel to whom. */
  ghost function HoldingsOf(nodes: Nodes): (h: Holdings)
    reads nodes.Values
  {
    map x | x in nodes :: nodes[x].channels
  }

  /** Every channel object some node holds. */
  ghost function Held(h: Holdings): (held: set<PaymentChannel>) {
    set x, peer | x in h && peer in h[x] :: h[x][peer]
  }

  /** `e.0` holds the graph's channel to `e.1`, and the graph has the same object in the other direction. */
  ghost predicate EdgeLinked(edges: ChannelEdges, h: Holdings, e: (string, string))
    requires e in edges
  {
    && e.0 in h && e.1 in h[e.0] && h[e.0][e.1] == edges[e]
    && (e.1, e.0) in edges && edges[(e.1, e.0)] == edges[e]
    && e.0 != e.1 && e.0 != "" && e.1 != ""
    && ((edges[e].sender == e.0 && edges[e].receiver == e.1) || (edges[e].sender == e.1 && edges[e].receiver == e.0))
  }

  /** The graph and the nodes share one channel object per pair of neighbours. */
  ghost predicate Linked(edges: ChannelEdges, h: Holdings) {
    forall e :: e in edges ==> EdgeLinked(edges, h, e)
  }

  ghost predicate Named(nodes: Nodes)
    reads nodes.Values
  {
    forall x :: x in nodes ==> nodes[x].alias == x && nodes[x].Valid()
  }

  lemma LinkedShared(graph: NetworkGraph, h: Holdings)
    requires Linked(Edges(graph.adj), h)
    ensures Shared(graph.View())
  {
    hide Edges;
    var edges := Edges(graph.adj);
    forall e | e in edges
      ensures (e.1, e.0) in edges && edges[(e.1, e.0)] == edges[e] && PartiesAre(edges[e].View(), e.0, e.1)
    {
      assert EdgeLinked(edges, h, e);
    }
  }

  /** One channel object serves exactly one pair of neighbours. */
  lemma OnePair(edges: ChannelEdges, h: Holdings, e: (string, string), f: (string, string))
    requires Linked(edges, h) && e in edges && f in edges && edges[e] == edges[f]
    ensures f == e || f == (e.1, e.0)
  {
    assert EdgeLinked(edges, h, e) && EdgeLinked(edges, h, f);
    assert f == (f.0, f.1) && e == (e.0, e.1);
  }

  /** When one channel object changed, the views change exactly at its pair. */
  lemma OneChannelChanged(edges: ChannelEdges, h: Holdings, before: map<(string, string), Chan>, e: (string, string))
    requires Linked(edges, h) && e in edges && before.Keys == edges.Keys
    requires forall f :: f in edges && edges[f] != edges[e] ==> edges[f].View() == before[f]
    ensures ViewEdges(edges) == before[e := edges[e].View()][(e.1, e.0) := edges[e].View()]
  {
    hide Linked;
    var after := before[e := edges[e].View()][(e.1, e.0) := edges[e].View()];
    assert EdgeLinked(edges, h, e) by { LinkedEdge(edges, h, e); }
    forall f | f in edges
      ensures edges[f].View() == after[f]
    {
      if edges[f] == edges[e] {
        OnePair(edges, h, e, f);
      }
    }
  }

  /** The views of the channels, one by one. */
  lemma ViewsOf(edges: ChannelEdges)
    ensures ViewEdges(edges).Keys == edges.Keys
    ensures forall f :: f in edges ==> ViewEdges(edges)[f] == edges[f].View()
  {
  }

  lemma LinkedEdge(edges: ChannelEdges, h: Holdings, e: (string, string))
    requires Linked(edges, h) && e in edges
    ensures EdgeLinked(edges, h, e)
  {
  }

  /** The channel an edge stands for is the one its first node holds. */
  lemma HeldByNode(edges: ChannelEdges, nodes: Nodes, e: (string, string))
    requires Linked(edges, HoldingsOf(nodes)) && e in edges
    ensures e.0 in nodes && nodes[e.0] in nodes.Values && nodes[e.0].channels.Values <= Held(HoldingsOf(nodes))
    ensures e.1 in nodes[e.0].channels && nodes[e.0].channels[e.1] == edges[e]
  {
    LinkedEdge(edges, HoldingsOf(nodes), e);
    assert HoldingsOf(nodes)[e.0] == nodes[e.0].channels;
  }

  /** `route_htlc_payment` at the hop's sender. */
  method LockOnHop(graph: NetworkGraph, nodes: Nodes, hop: RouteHop, id: string, hash: string, secret: string)
    returns (outcome: Outcome)
    requires Named(nodes) && Linked(Edges(graph.adj), HoldingsOf(nodes)) && (hop.sender, hop.receiver) in Edges(graph.adj)
    modifies nodes.Values, Held(HoldingsOf(nodes))
    ensures Named(nodes) && HoldingsOf(nodes) == old(HoldingsOf(nodes))
    ensures LockHop(old(graph.View()), hop, id, hash) == if outcome == Done then Some(graph.View()) else None
  {
    hide Edges, Add, Linked, Held, ViewEdges;
    ghost var edges, e := Edges(graph.adj), (hop.sender, hop.receiver);
    ghost var before, h := ViewEdges(edges), HoldingsOf(nodes);
    HeldByNode(edges, nodes, e);
    ViewsOf(edges);
    var node := nodes[hop.sender];
    outcome := node.RouteHtlcPayment(hop.receiver, hop.amount, hash, hop.locktime, id, secret);
    assert HoldingsOf(nodes) == h;
    OneChannelChanged(edges, h, before, e);
  }

  /** `fulfill_htlc` for the hop. */
  method RedeemOnHop(graph: NetworkGraph, nodes: Nodes, hop: RouteHop, id: string, sha: PreimageHash, preimage: string)
    returns (outcome: Outcome)
    requires Named(nodes) && Linked(Edges(graph.adj), HoldingsOf(nodes)) && (hop.sender, hop.receiver) in Edges(graph.adj)
    modifies Held(HoldingsOf(nodes))
    ensures Named(nodes) && HoldingsOf(nodes) == old(HoldingsOf(nodes))
    ensures RedeemHop(old(graph.View()), hop, id, sha, preimage) == if outcome == Done then Some(graph.View()) else None
  {
    hide Edges, Redeem, Linked, Held, ViewEdges;
    ghost var edges, e := Edges(graph.adj), (hop.sender, hop.receiver);
    ghost var before, h := ViewEdges(edges), HoldingsOf(nodes);
    HeldByNode(edges, nodes, e);
    ViewsOf(edges);
    var node := nodes[hop.sender];
    outcome := node.FulfillHtlc(hop.receiver, sha, id, preimage);
    assert HoldingsOf(nodes) == h;
    OneChannelChanged(edges, h, before, e);
  }

  /** `refund_htlc` at the hop's sender. */
  method RefundOnHop(graph: NetworkGraph, nodes: Nodes, hop: RouteHop, id: string, height: int) returns (outcome: Outcome)
    requires Named(nodes) && Linked(Edges(graph.adj), HoldingsOf(nodes)) && (hop.sender, hop.receiver) in Edges(graph.adj)
    modifies Held(HoldingsOf(nodes))
    ensures Named(nodes) && HoldingsOf(nodes) == old(HoldingsOf(nodes))
    ensures RefundHop(old(graph.View()), hop, id, height) == if outcome == Done then Some(graph.View()) else None
  {
    hide Edges, Refund, Linked, Held, ViewEdges;
    ghost var edges, e := Edges(graph.adj), (hop.sender, hop.receiver);
    ghost var before, h := ViewEdges(edges), HoldingsOf(nodes);
    HeldByNode(edges, nodes, e);
    ViewsOf(edges);
    var node := nodes[hop.sender];
    outcome := node.RefundHtlc(hop.receiver, id, height);
    assert HoldingsOf(nodes) == h;
    OneChannelChanged(edges, h, before, e);
  }

  // ----- setting up

  /** What `u` and `v` opening a channel does to the holdings. */
  ghost function WithHolding(h: Holdings, u: string, v: string, c: PaymentChannel): (r: Holdings)
    requires u in h && v in h
  {
    h[u := h[u][v := c]][v := h[v][u := c]]
  }

  lemma OpenedLinked(edges: ChannelEdges, h: Holdings, u: string, v: string, c: PaymentChannel)
    requires Linked(edges, h) && u in h && v in h && u != v && u != "" && v != ""
    requires c.sender == u && c.receiver == v
    ensures Linked(edges[(u, v) := c][(v, u) := c], WithHolding(h, u, v, c))
  {
    var after, h' := edges[(u, v) := c][(v, u) := c], WithHolding(h, u, v, c);
    forall e | e in after
      ensures EdgeLinked(after, h', e)
    {
      assert e == (e.0, e.1);
      if e != (u, v) && e != (v, u) {
        assert EdgeLinked(edges, h, e);
      }
    }
  }

  lemma HoldersAreNodes(nodes: Nodes)
    ensures HoldingsOf(nodes).Keys == nodes.Keys
  {
  }

  method OpenPair(nodes: Nodes, u: string, v: string, capacity: int) returns (channel: PaymentChannel)
    requires Named(nodes) && u in nodes && v in nodes && u != v
    modifies nodes[u], nodes[v]
    ensures Named(nodes) && HoldingsOf(nodes) == WithHolding(old(HoldingsOf(nodes)), u, v, channel)
    ensures fresh(channel) && channel.View() == Opened(u, v, capacity)
  {
    hide Opened;
    channel := nodes[u].OpenChannel(nodes[v], capacity);
    assert forall x :: x in nodes && x != u && x != v ==> nodes[x] != nodes[u] && nodes[x] != nodes[v];
  }

  /** Opening a channel between two known nodes and registering it keeps graph and nodes linked. */
  method OpenOnGraph(graph: NetworkGraph, nodes: Nodes, u: string, v: string, capacity: int) returns (channel: PaymentChannel)
    requires Named(nodes) && Linked(Edges(graph.adj), HoldingsOf(nodes))
    requires u in nodes && v in nodes && u != v && u != "" && v != ""
    modifies graph, nodes[u], nodes[v]
    ensures Named(nodes) && Linked(Edges(graph.adj), HoldingsOf(nodes))
    ensures Edges(graph.adj) == old(Edges(graph.adj))[(u, v) := channel][(v, u) := channel]
    ensures fresh(channel) && channel.View() == Opened(u, v, capacity)
  {
    hide Edges, Linked, AddEdges, ViewEdges, WithChannel, HoldingsOf, Named, WithHolding;
    ghost var before, h := graph.adj, HoldingsOf(nodes);
    HoldersAreNodes(nodes);
    channel := OpenPair(nodes, u, v, capacity);
    OpenedLinked(Edges(before), h, u, v, channel);
    EdgesAdded(before, u, v, channel);
    graph.AddChannel(channel);
  }

  // ----- whole routes

  /** The payment over the hops from `i` on. */
  function Onwards(p: Payment, i: nat): (q: Payment)
    requires i <= |p.hops| == |p.ids|
    ensures |q.hops| == |q.ids| == |p.hops| - i
  {
    p.(hops := p.hops[i..], ids := p.ids[i..])
  }

  lemma OnwardsStep(p: Payment, i: nat)
    requires i < |p.hops| == |p.ids|
    ensures var q := Onwards(p, i);
      q.hops[0] == p.hops[i] && q.ids[0] == p.ids[i] && q.hash == p.hash && Rest(q) == Onwards(p, i + 1)
  {
  }

  lemma OnwardsAll(p: Payment)
    requires |p.hops| == |p.ids|
    ensures Onwards(p, 0) == p
  {
  }

  /** Every hop is an edge of the graph. */
  ghost predicate OnGraph(edges: ChannelEdges, hops: seq<RouteHop>) {
    forall i :: 0 <= i < |hops| ==> (hops[i].sender, hops[i].receiver) in edges
  }

  /** Locks every hop from the source on; false stands for an exception, which leaves the earlier locks in place. */
  method LockRoute(graph: NetworkGraph, nodes: Nodes, p: Payment, secret: string -> string) returns (done: bool)
    requires Named(nodes) && Linked(Edges(graph.adj), HoldingsOf(nodes))
    requires |p.ids| == |p.hops| && OnGraph(Edges(graph.adj), p.hops)
    modifies nodes.Values, Held(HoldingsOf(nodes))
    ensures Named(nodes) && HoldingsOf(nodes) == old(HoldingsOf(nodes))
    ensures LockAll(old(graph.View()), p) == if done then Some(graph.View()) else None
  {
    hide Edges, LockHop, Linked, Held, ViewEdges, Named;
    ghost var h, edges := HoldingsOf(nodes), Edges(graph.adj);
    ghost var start := graph.View();
    OnwardsAll(p);
    for i := 0 to |p.hops|
      invariant Named(nodes) && HoldingsOf(nodes) == h
      invariant LockAll(start, p) == LockAll(graph.View(), Onwards(p, i))
    {
      OnwardsStep(p, i);
      var outcome := LockOnHop(graph, nodes, p.hops[i], p.ids[i], p.hash, secret(p.ids[i]));
      if outcome != Done {
        return false;
      }
    }
    return true;
  }

  lemma {:induction false} RedeemFails(start: Net, p: Payment, i: nat, sha: PreimageHash, preimage: string)
    requires i <= |p.hops| == |p.ids| && RedeemAll(start, Onwards(p, i), sha, preimage).None?
    ensures RedeemAll(start, p, sha, preimage).None?
  {
    if i == 0 {
      OnwardsAll(p);
    } else {
      OnwardsStep(p, i - 1);
      RedeemFails(start, p, i - 1, sha, preimage);
    }
  }

  lemma {:induction false} RefundFails(start: Net, p: Payment, i: nat, height: int)
    requires i <= |p.hops| == |p.ids| && RefundAll(start, Onwards(p, i), height).None?
    ensures RefundAll(start, p, height).None?
  {
    if i == 0 {
      OnwardsAll(p);
    } else {
      OnwardsStep(p, i - 1);
      RefundFails(start, p, i - 1, height);
    }
  }

  /** Redeems every hop from the target back. */
  method RedeemRoute(graph: NetworkGraph, nodes: Nodes, p: Payment, sha: PreimageHash, preimage: string) returns (done: bool)
    requires Named(nodes) && Linked(Edges(graph.adj), HoldingsOf(nodes))
    requires |p.ids| == |p.hops| && OnGraph(Edges(graph.adj), p.hops)
    modifies Held(HoldingsOf(nodes))
    ensures Named(nodes) && HoldingsOf(nodes) == old(HoldingsOf(nodes))
    ensures RedeemAll(old(graph.View()), p, sha, preimage) == if done then Some(graph.View()) else None
  {
    hide Edges, RedeemHop, Linked, Held, ViewEdges, Named;
    ghost var h := HoldingsOf(nodes);
    ghost var start := graph.View();
    for i := |p.hops| downto 0
      invariant Named(nodes) && HoldingsOf(nodes) == h
      invariant RedeemAll(start, Onwards(p, i), sha, preimage) == Some(graph.View())
    {
      OnwardsStep(p, i);
      var outcome := RedeemOnHop(graph, nodes, p.hops[i], p.ids[i], sha, preimage);
      if outcome != Done {
        RedeemFails(start, p, i, sha, preimage);
        return false;
      }
    }
    OnwardsAll(p);
    return true;
  }

  /** Refunds every hop from the target back. */
  method RefundRoute(graph: NetworkGraph, nodes: Nodes, p: Payment, height: int) returns (done: bool)
    requires Named(nodes) && Linked(Edges(graph.adj), HoldingsOf(nodes))
    requires |p.ids| == |p.hops| && OnGraph(Edges(graph.adj), p.hops)
    modifies Held(HoldingsOf(nodes))
    ensures Named(nodes) && HoldingsOf(nodes) == old(HoldingsOf(nodes))
    ensures RefundAll(old(graph.View()), p, height) == if done then Some(graph.View()) else None
  {
    hide Edges, RefundHop, Linked, Held, ViewEdges, Named;
    ghost var h := HoldingsOf(nodes);
    ghost var start := graph.View();
    for i := |p.hops| downto 0
      invariant Named(nodes) && HoldingsOf(nodes) == h
      invariant RefundAll(start, Onwards(p, i), height) == Some(graph.View())
    {
      OnwardsStep(p, i);
      var outcome := RefundOnHop(graph, nodes, p.hops[i], p.ids[i], height);
      if outcome != Done {
        RefundFails(start, p, i, height);
        return false;
      }
    }
    OnwardsAll(p);
    return true;
  }

  // ----- a whole payment

  /** The ids are in use in no channel of the route. */
  predicate FreshOnRoute(net: Net, hops: seq<RouteHop>, ids: nat -> string) {
    forall i :: 0 <= i < |hops| && (hops[i].sender, hops[i].receiver) in net.chans ==> ids(i) !in ChannelOf(net, hops[i]).htlcs
  }

  /** The ids are in use nowhere. */
  ghost predicate FreshEverywhere(net: Net, ids: nat -> string) {
    forall e, k: nat :: e in net.chans ==> ids(k) !in net.chans[e].htlcs
  }

  function PaymentOver(hops: seq<RouteHop>, ids: nat -> string, hash: string): (p: Payment)
    ensures p.hops == hops && |p.ids| == |hops| && p.hash == hash
  {
    Payment(hops, seq(|hops|, i requires 0 <= i < |hops| => ids(i)), hash)
  }

  lemma RouteOnGraph(problem: Problem, path: seq<string>, route: PaymentRoute, edges: ChannelEdges)
    requires IsRoute(problem, path, route) && problem.net.chans.Keys == edges.Keys
    ensures OnGraph(edges, route.hops)
  {
    hide RouteOver, Fee, HopLocktime;
    RoutePriced(problem, path, route);
    forall i | 0 <= i < |route.hops|
      ensures (route.hops[i].sender, route.hops[i].receiver) in edges
    {
      HopEnds(problem.net, path, problem.request, route.hops, 0, i);
      assert Eligible(problem.net, problem.request.amount, path[i], path[i + 1]);
    }
  }

  /** Over open channels fresh ids are all that execution needs. */
  lemma OpenExecutable(net: Net, hops: seq<RouteHop>, ids: nat -> string, hash: string)
    requires AllOpen(net, hops) && FreshOnRoute(net, hops, ids)
    ensures Executable(net, PaymentOver(hops, ids, hash))
  {
    forall i | 0 <= i < |hops|
      ensures ChannelOf(net, hops[i]).state == OPEN
    {
      assert HopOpen(net, hops[i]);
    }
  }

  /** Locks a found route hop by hop and redeems it back: this goes through exactly when all the route's channels are open. */
  method PayRoute(graph: NetworkGraph, nodes: Nodes, route: PaymentRoute, ids: nat -> string, hash: string,
                  secret: string -> string, sha: PreimageHash, preimage: string, ghost problem: Problem, ghost path: seq<string>)
    returns (done: bool)
    requires Named(nodes) && Linked(Edges(graph.adj), HoldingsOf(nodes))
    requires problem.net == graph.View() && IsRoute(problem, path, route) && route.hops != []
    requires FreshOnRoute(graph.View(), route.hops, ids) && sha(preimage) == Some(hash)
    modifies nodes.Values, Held(HoldingsOf(nodes))
    ensures done <==> AllOpen(problem.net, route.hops)
    ensures |route.hops| + 1 == |path|
    ensures done ==> Paid(problem.net, graph.View(), path, problem.request.amount, route)
  {
    hide Edges, Linked, Held, ViewEdges, Named, LockAll, RedeemAll, IsRoute, Paid, FreshOnRoute, OnGraph, Executable, Shared, AllOpen;
    hide Funded, PaymentOver;
    var p := PaymentOver(route.hops, ids, hash);
    LinkedShared(graph, HoldingsOf(nodes));
    graph.ViewKeys();
    RouteOnGraph(problem, path, route, Edges(graph.adj));
    RouteLocks(problem, path, route, p);
    PathTaken(problem, path, route);
    if AllOpen(problem.net, route.hops) {
      OpenExecutable(problem.net, route.hops, ids, hash);
      RouteSettles(problem, path, route, p, sha, preimage);
    }
    done := LockRoute(graph, nodes, p, secret);
    if done {
      done := RedeemRoute(graph, nodes, p, sha, preimage);
    }
  }

  /** Finds a route and carries it out. The payment goes through exactly when a route is found and its channels are open; then
      exactly the source pays, the forwarders earn their fees and the target earns the amount. */
  method Pay(graph: NetworkGraph, nodes: Nodes, source: string, target: string, r: Request, ids: nat -> string,
             hash: string, secret: string -> string, sha: PreimageHash, preimage: string)
    returns (route: Option<PaymentRoute>, done: bool)
    requires Named(nodes) && Linked(Edges(graph.adj), HoldingsOf(nodes))
    requires FreshEverywhere(graph.View(), ids) && sha(preimage) == Some(hash)
    modifies nodes.Values, Held(HoldingsOf(nodes))
    ensures IsAnswer(Problem(old(graph.View()), source, target, r), route)
    ensures done <==> route.Some? && AllOpen(old(graph.View()), route.value.hops)
    ensures route.None? || route.value.hops == [] ==> graph.View() == old(graph.View())
    ensures done && route.value.hops != [] ==>
      var path := TakenPath(source, route.value);
      && |route.value.hops| + 1 == |path| && path[0] == source && path[|path| - 1] == target
      && Paid(old(graph.View()), graph.View(), path, r.amount, route.value)
  {
    hide Linked, Held, Named, Paid, FreshEverywhere, RouteOver, Simple, OverShortest, NearerShort;
    ghost var problem := Problem(graph.View(), source, target, r);
    route := FindRoute(graph, source, target, r);
    done := route.Some?;
    if route.Some? && route.value.hops != [] {
      ghost var path := TakenPath(source, route.value);
      FreshSomewhere(problem.net, route.value.hops, ids);
      done := PayRoute(graph, nodes, route.value, ids, hash, secret, sha, preimage, problem, path);
    }
  }

  lemma FreshSomewhere(net: Net, hops: seq<RouteHop>, ids: nat -> string)
    requires FreshEverywhere(net, ids)
    ensures FreshOnRoute(net, hops, ids)
  {
  }

  /** Locks a found route hop by hop and, after expiry, refunds it: this goes through exactly when all the route's channels
      are open, and then leaves every channel of the graph as before, sequence numbers aside. */
  method LockAndRefund(graph: NetworkGraph, nodes: Nodes, route: PaymentRoute, ids: nat -> string, hash: string,
                       secret: string -> string, height: int, ghost problem: Problem, ghost path: seq<string>)
    returns (done: bool)
    requires Named(nodes) && Linked(Edges(graph.adj), HoldingsOf(nodes))
    requires problem.net == graph.View() && IsRoute(problem, path, route)
    requires FreshOnRoute(graph.View(), route.hops, ids) && AllExpired(route.hops, height)
    modifies nodes.Values, Held(HoldingsOf(nodes))
    ensures done <==> AllOpen(problem.net, route.hops)
    ensures done ==> Alike(graph.View(), problem.net)
  {
    hide Edges, Linked, Held, ViewEdges, Named, LockAll, RefundAll, IsRoute, Alike, FreshOnRoute, OnGraph, Executable, Shared, AllOpen;
    hide Funded, PaymentOver;
    var p := PaymentOver(route.hops, ids, hash);
    LinkedShared(graph, HoldingsOf(nodes));
    graph.ViewKeys();
    RouteOnGraph(problem, path, route, Edges(graph.adj));
    RouteLocks(problem, path, route, p);
    if AllOpen(problem.net, route.hops) {
      OpenExecutable(problem.net, route.hops, ids, hash);
      RouteRefunds(problem, path, route, p, height);
    }
    done := LockRoute(graph, nodes, p, secret);
    if done {
      done := RefundRoute(graph, nodes, p, height);
    }
  }
}
