/** The priority-queue route search (network/routing.py, DijkstraRoutingStrategy). */
module RouteSearch {
  import opened Bytes
  import opened Network
  import opened Pricing

  /** A queue entry: a path from the source, its last node, and its number of hops. */
  datatype Entry = Entry(cost: nat, node: string, path: seq<string>)

  type Queue = multiset<Entry>

  /** Nodes already expanded, with the cost at which they were. */
  type Visited = map<string, nat>

  /** What is searched for, and in which graph. */
  datatype Problem = Problem(net: Net, source: string, target: string, request: Request)

  // ----- walks that stay off the target

  /** A walk from the source to `v` that does not touch the target. */
  predicate OffTarget(p: Problem, walk: seq<string>, v: string) {
    IsWalk(p.net, p.request.amount, walk) && Connects(walk, p.source, v) && p.target !in walk
  }

  /** A shortest such walk. */
  ghost predicate Shortest(p: Problem, path: seq<string>, v: string) {
    OffTarget(p, path, v) && forall walk :: OffTarget(p, walk, v) ==> |path| <= |walk|
  }

  /** The route over `path` and on to the target. */
  function PricedOn(p: Problem, path: seq<string>): (route: Option<PaymentRoute>) {
    RouteOver(p.net, path + [p.target], p.request)
  }

  /** Some shortest path to `v` cannot pay the fees on to the target. */
  ghost predicate Short(p: Problem, v: string) {
    exists path :: Shortest(p, path, v) && PricedOn(p, path).None?
  }

  // ----- the queue's entries

  ghost predicate EntryOk(p: Problem, e: Entry) {
    && Connects(e.path, p.source, e.node) && e.cost == |e.path| - 1
    && IsWalk(p.net, p.request.amount, e.path) && Simple(e.path)
  }

  /** The nodes of a path before its last were expanded, each at its position. */
  ghost predicate PrefixVisited(e: Entry, dist: Visited) {
    forall j :: 0 <= j < |e.path| - 1 ==> e.path[j] in dist && dist[e.path[j]] == j
  }

  ghost predicate Queued(queue: Queue, w: string, k: nat) {
    exists e :: e in queue && e.node == w && e.cost <= k
  }

  /** Node `w` was, or still will be, reached within `k` hops. */
  ghost predicate Known(queue: Queue, dist: Visited, w: string, k: nat) {
    (w in dist && dist[w] <= k) || Queued(queue, w, k)
  }

  predicate ArrivesFrom(p: Problem, e: Entry, v: string) {
    e.node == p.target && |e.path| >= 2 && e.path[|e.path| - 2] == v
  }

  /** A path over `v` to the target is still to be priced. */
  ghost predicate Awaited(p: Problem, queue: Queue, v: string, k: nat) {
    exists e :: e in queue && ArrivesFrom(p, e, v) && e.cost <= k
  }

  ghost predicate Sound(p: Problem, queue: Queue, dist: Visited) {
    && p.target !in dist
    && (forall e :: e in queue ==> EntryOk(p, e) && PrefixVisited(e, dist))
    && (forall v, e :: v in dist && e in queue ==> dist[v] <= e.cost)
  }

  /** No walk off the target reaches an expanded node sooner than it was expanded. */
  ghost predicate Minimal(p: Problem, dist: Visited) {
    forall v, walk :: v in dist && OffTarget(p, walk, v) ==> dist[v] < |walk|
  }

  /** Nothing eligible was forgotten: the source, and every neighbour of an expanded node off the target. */
  ghost predicate Complete(p: Problem, queue: Queue, dist: Visited) {
    && Known(queue, dist, p.source, 0)
    && forall v, w :: v in dist && w != p.target && Eligible(p.net, p.request.amount, v, w) ==>
      Known(queue, dist, w, dist[v] + 1)
  }

  /** Every expanded neighbour of the target had a path over it priced in vain, or will have one priced. */
  ghost predicate Arriving(p: Problem, queue: Queue, dist: Visited) {
    forall v :: v in dist && Eligible(p.net, p.request.amount, v, p.target) ==>
      Short(p, v) || Awaited(p, queue, v, dist[v] + 1)
  }

  ghost predicate Searching(p: Problem, queue: Queue, dist: Visited) {
    Sound(p, queue, dist) && Minimal(p, dist) && Complete(p, queue, dist) && Arriving(p, queue, dist)
  }

  /** Along any walk off the target, its end was expanded in time or some queue entry is at most as long. */
  lemma FrontierCutsWalk(p: Problem, queue: Queue, dist: Visited, walk: seq<string>, v: string)
    requires Complete(p, queue, dist) && OffTarget(p, walk, v)
    ensures (v in dist && dist[v] < |walk|) || exists e :: e in queue && e.cost < |walk|
  {
    WalkKnown(p, queue, dist, walk, v, |walk| - 1);
    if Queued(queue, v, |walk| - 1) {
      var e :| e in queue && e.node == v && e.cost <= |walk| - 1;
    }
  }

  lemma {:induction false} WalkKnown(p: Problem, queue: Queue, dist: Visited, walk: seq<string>, v: string, k: nat)
    requires Complete(p, queue, dist) && OffTarget(p, walk, v) && k < |walk|
    ensures Known(queue, dist, walk[k], k) || exists e :: e in queue && e.cost < k
  {
    if k > 0 {
      WalkKnown(p, queue, dist, walk, v, k - 1);
      var u, w := walk[k - 1], walk[k];
      assert Eligible(p.net, p.request.amount, u, w) && w != p.target;
      if u in dist && dist[u] <= k - 1 {
        assert Known(queue, dist, w, dist[u] + 1);
        KnownLonger(queue, dist, w, dist[u] + 1, k);
      } else {
        assert exists e :: e in queue && e.cost < k;
      }
    }
  }

  lemma KnownLonger(queue: Queue, dist: Visited, w: string, k: nat, l: nat)
    requires Known(queue, dist, w, k) && k <= l
    ensures Known(queue, dist, w, l)
  {
  }

  // ----- the queue

  lemma {:induction false} MinimumExists(queue: Queue)
    requires queue != multiset{}
    ensures exists e :: IsMinimum(queue, e)
    decreases |queue|
  {
    var e :| e in queue;
    var rest := queue - multiset{e};
    if rest == multiset{} {
      OnlyOne(queue, e);
    } else {
      MinimumExists(rest);
      var m :| IsMinimum(rest, m);
      assert IsMinimum(queue, if e.cost <= m.cost then e else m);
    }
  }

  predicate IsMinimum(queue: Queue, e: Entry) {
    e in queue && forall f :: f in queue ==> e.cost <= f.cost
  }

  lemma OnlyOne(queue: Queue, e: Entry)
    requires e in queue && queue - multiset{e} == multiset{}
    ensures IsMinimum(queue, e)
  {
    forall f | f in queue
      ensures f == e
    {
      assert f != e ==> (queue - multiset{e})[f] == queue[f];
    }
  }

  /** `heappop`: any entry of least cost. */
  method PopMinimum(queue: Queue) returns (e: Entry, rest: Queue)
    requires queue != multiset{}
    ensures e in queue && rest == queue - multiset{e}
    ensures forall f :: f in queue ==> e.cost <= f.cost
  {
    MinimumExists(queue);
    e :| e in queue && IsMinimum(queue, e);
    rest := queue - multiset{e};
  }

  /** One expansion: the old entries, and one longer entry for every eligible neighbour off the path. */
  ghost predicate Expanded(p: Problem, before: Queue, e: Entry, after: Queue) {
    && (forall f :: f in before ==> f in after)
    && (forall f :: f in after ==> f in before || IsExtension(p, e, f))
    && forall w :: Eligible(p.net, p.request.amount, e.node, w) && w !in e.path ==> Entry(e.cost + 1, w, e.path + [w]) in after
  }

  ghost predicate IsExtension(p: Problem, e: Entry, f: Entry) {
    Eligible(p.net, p.request.amount, e.node, f.node) && f.node !in e.path && f == Entry(e.cost + 1, f.node, e.path + [f.node])
  }

  lemma ExtensionOk(p: Problem, e: Entry, dist: Visited, f: Entry)
    requires EntryOk(p, e) && PrefixVisited(e, dist) && IsExtension(p, e, f)
    ensures EntryOk(p, f) && PrefixVisited(f, dist[e.node := e.cost])
  {
    forall i | 0 <= i < |f.path| - 1
      ensures Eligible(p.net, p.request.amount, f.path[i], f.path[i + 1])
    {
      if i < |e.path| - 1 {
        assert Eligible(p.net, p.request.amount, e.path[i], e.path[i + 1]);
      }
    }
    forall j | 0 <= j < |f.path| - 1
      ensures f.path[j] in dist[e.node := e.cost] && dist[e.node := e.cost][f.path[j]] == j
    {
      if j < |e.path| - 1 {
        assert e.path[j] != e.path[|e.path| - 1];
      }
    }
  }

  /** Popping an entry for a node already expanded loses nothing. */
  lemma PopKeepsKnown(queue: Queue, dist: Visited, e: Entry, w: string, k: nat)
    requires e in queue && Known(queue, dist, w, k)
    requires e.node == w ==> w in dist && dist[w] <= e.cost
    ensures Known(queue - multiset{e}, dist, w, k)
  {
    if !(w in dist && dist[w] <= k) {
      var f :| f in queue && f.node == w && f.cost <= k;
      assert f != e;
      assert f in queue - multiset{e};
    }
  }

  lemma PopKeepsAwaited(p: Problem, queue: Queue, e: Entry, v: string, k: nat)
    requires e in queue && Awaited(p, queue, v, k) && !ArrivesFrom(p, e, v)
    ensures Awaited(p, queue - multiset{e}, v, k)
  {
    var f :| f in queue && ArrivesFrom(p, f, v) && f.cost <= k;
    assert f in queue - multiset{e};
  }

  lemma PopKeepsSound(p: Problem, queue: Queue, dist: Visited, e: Entry)
    requires Sound(p, queue, dist)
    ensures Sound(p, queue - multiset{e}, dist)
  {
  }

  lemma PopKeepsComplete(p: Problem, queue: Queue, dist: Visited, e: Entry)
    requires Complete(p, queue, dist) && e in queue
    requires if e.node == p.target then p.source != p.target else e.node in dist && dist[e.node] <= e.cost
    ensures Complete(p, queue - multiset{e}, dist)
  {
    hide Known;
    var rest := queue - multiset{e};
    PopKeepsKnown(queue, dist, e, p.source, 0);
    forall v, w | v in dist && w != p.target && Eligible(p.net, p.request.amount, v, w)
      ensures Known(rest, dist, w, dist[v] + 1)
    {
      PopKeepsKnown(queue, dist, e, w, dist[v] + 1);
    }
  }

  lemma SkipKeeps(p: Problem, queue: Queue, dist: Visited, e: Entry)
    requires Searching(p, queue, dist) && e in queue && e.node in dist
    ensures Searching(p, queue - multiset{e}, dist)
  {
    hide Known, Short, Awaited, EntryOk, PrefixVisited, Complete;
    PopKeepsSound(p, queue, dist, e);
    PopKeepsComplete(p, queue, dist, e);
    forall v | v in dist && Eligible(p.net, p.request.amount, v, p.target)
      ensures Short(p, v) || Awaited(p, queue - multiset{e}, v, dist[v] + 1)
    {
      if !Short(p, v) {
        PopKeepsAwaited(p, queue, e, v, dist[v] + 1);
      }
    }
  }

  /** What a popped target entry was: a shortest path off the target, and the target. */
  lemma TargetEntry(p: Problem, queue: Queue, dist: Visited, e: Entry)
    requires Sound(p, queue, dist) && Minimal(p, dist) && e in queue && e.node == p.target && p.source != p.target
    ensures |e.path| >= 2
    ensures var prefix, v := e.path[..|e.path| - 1], e.path[|e.path| - 2];
      e.path == prefix + [p.target] && Shortest(p, prefix, v) && Eligible(p.net, p.request.amount, v, p.target)
  {
    hide Eligible;
    assert EntryOk(p, e) && PrefixVisited(e, dist);
    var n := |e.path|;
    FrontOff(p, e.path);
    var prefix, v := e.path[..n - 1], e.path[n - 2];
    assert forall j :: 0 <= j < n - 1 ==> e.path[j] in dist;
    assert OffTarget(p, prefix, v);
    assert dist[v] == n - 2;
  }

  /** A walk to the target from elsewhere, without its last node. */
  lemma FrontOff(p: Problem, path: seq<string>)
    requires IsWalk(p.net, p.request.amount, path) && Connects(path, p.source, p.target) && p.source != p.target
    ensures |path| >= 2 && path == path[..|path| - 1] + [p.target]
    ensures var front := path[..|path| - 1];
      IsWalk(p.net, p.request.amount, front) && Connects(front, p.source, path[|path| - 2])
    ensures Eligible(p.net, p.request.amount, path[|path| - 2], p.target)
  {
    hide Eligible;
    var n := |path|;
    var front := path[..n - 1];
    forall i | 0 <= i < |front| - 1
      ensures Eligible(p.net, p.request.amount, front[i], front[i + 1])
    {
      assert Eligible(p.net, p.request.amount, path[i], path[i + 1]);
    }
    assert Eligible(p.net, p.request.amount, path[n - 2], path[n - 2 + 1]);
  }

  /** A target entry that cannot be priced shows its last node to be short. */
  lemma DropKeeps(p: Problem, queue: Queue, dist: Visited, e: Entry)
    requires Searching(p, queue, dist) && e in queue && e.node == p.target
    requires e.path != [] && RouteOver(p.net, e.path, p.request).None?
    ensures Searching(p, queue - multiset{e}, dist)
  {
    hide Known, Awaited, RouteOver, Complete, Minimal, Shortest;
    NotHere(p, queue, dist, e);
    TargetEntry(p, queue, dist, e);
    var prefix, u := e.path[..|e.path| - 1], e.path[|e.path| - 2];
    assert Shortest(p, prefix, u) && PricedOn(p, prefix).None?;
    PopKeepsSound(p, queue, dist, e);
    PopKeepsComplete(p, queue, dist, e);
    forall v | v in dist && Eligible(p.net, p.request.amount, v, p.target)
      ensures Short(p, v) || Awaited(p, queue - multiset{e}, v, dist[v] + 1)
    {
      if v != u && !Short(p, v) {
        PopKeepsAwaited(p, queue, e, v, dist[v] + 1);
      }
    }
  }

  /** From a source that is the target the empty route is always found. */
  lemma NotHere(p: Problem, queue: Queue, dist: Visited, e: Entry)
    requires Sound(p, queue, dist) && e in queue && e.node == p.target
    requires e.path != [] && RouteOver(p.net, e.path, p.request).None?
    ensures p.source != p.target
  {
    assert EntryOk(p, e);
    assert |e.path| > 1 ==> e.path[0] != e.path[|e.path| - 1];
  }

  lemma ExpandKeepsSound(p: Problem, queue: Queue, dist: Visited, e: Entry, after: Queue)
    requires Sound(p, queue, dist) && e in queue && e.node !in dist && e.node != p.target
    requires forall f :: f in queue ==> e.cost <= f.cost
    requires Expanded(p, queue - multiset{e}, e, after)
    ensures Sound(p, after, dist[e.node := e.cost])
  {
    hide EntryOk, PrefixVisited;
    var dist' := dist[e.node := e.cost];
    forall f | f in after
      ensures EntryOk(p, f) && PrefixVisited(f, dist') && e.cost <= f.cost
    {
      if f in queue - multiset{e} {
        assert f in queue;
        KeepsPrefix(f, dist, e.node, e.cost);
      } else {
        ExtensionOk(p, e, dist, f);
      }
    }
  }

  lemma KeepsPrefix(f: Entry, dist: Visited, v: string, k: nat)
    requires PrefixVisited(f, dist) && v !in dist
    ensures PrefixVisited(f, dist[v := k])
  {
  }

  /** A node is expanded at its least distance off the target. */
  lemma ExpandKeepsMinimal(p: Problem, queue: Queue, dist: Visited, e: Entry)
    requires Minimal(p, dist) && Complete(p, queue, dist) && e.node !in dist
    requires forall f :: f in queue ==> e.cost <= f.cost
    ensures Minimal(p, dist[e.node := e.cost])
  {
    hide Complete, OffTarget;
    forall walk | OffTarget(p, walk, e.node)
      ensures e.cost < |walk|
    {
      FrontierCutsWalk(p, queue, dist, walk, e.node);
    }
  }

  lemma ExpandKeepsComplete(p: Problem, queue: Queue, dist: Visited, e: Entry, after: Queue)
    requires Sound(p, queue, dist) && Complete(p, queue, dist) && e in queue && e.node !in dist
    requires Expanded(p, queue - multiset{e}, e, after)
    ensures Complete(p, after, dist[e.node := e.cost])
  {
    hide Known, Expanded, Sound;
    var dist' := dist[e.node := e.cost];
    ExpandKeepsKnown(p, queue, dist, e, after, p.source, 0);
    forall v, w | v in dist' && w != p.target && Eligible(p.net, p.request.amount, v, w)
      ensures Known(after, dist', w, dist'[v] + 1)
    {
      if v == e.node {
        NeighbourKnown(p, queue, dist, e, after, w);
      } else {
        ExpandKeepsKnown(p, queue, dist, e, after, w, dist[v] + 1);
      }
    }
  }

  lemma ExpandKeepsKnown(p: Problem, queue: Queue, dist: Visited, e: Entry, after: Queue, w: string, k: nat)
    requires e in queue && e.node !in dist && Known(queue, dist, w, k)
    requires Expanded(p, queue - multiset{e}, e, after)
    ensures Known(after, dist[e.node := e.cost], w, k)
  {
    if !(w in dist && dist[w] <= k) {
      var f :| f in queue && f.node == w && f.cost <= k;
      if f != e {
        assert f in queue - multiset{e};
        assert f in after;
      }
    }
  }

  lemma NeighbourKnown(p: Problem, queue: Queue, dist: Visited, e: Entry, after: Queue, w: string)
    requires Sound(p, queue, dist) && e in queue && e.node !in dist
    requires Expanded(p, queue - multiset{e}, e, after) && Eligible(p.net, p.request.amount, e.node, w)
    ensures Known(after, dist[e.node := e.cost], w, e.cost + 1)
  {
    assert EntryOk(p, e) && PrefixVisited(e, dist);
    if w in e.path {
      var j :| 0 <= j < |e.path| && e.path[j] == w;
      if j < |e.path| - 1 {
        assert w in dist && dist[w] == j;
      }
    } else {
      assert Entry(e.cost + 1, w, e.path + [w]) in after;
    }
  }

  /** Expanding a neighbour of the target queues the path over it. */
  lemma ExpandAwaits(p: Problem, queue: Queue, dist: Visited, e: Entry, after: Queue)
    requires Sound(p, queue, dist) && e in queue && e.node != p.target
    requires Expanded(p, queue - multiset{e}, e, after) && Eligible(p.net, p.request.amount, e.node, p.target)
    ensures Awaited(p, after, e.node, e.cost + 1)
  {
    assert EntryOk(p, e) && PrefixVisited(e, dist);
    assert p.target !in e.path;
    var f := Entry(e.cost + 1, p.target, e.path + [p.target]);
    assert f in after && ArrivesFrom(p, f, e.node);
  }

  lemma ExpandKeepsArriving(p: Problem, queue: Queue, dist: Visited, e: Entry, after: Queue)
    requires Sound(p, queue, dist) && Arriving(p, queue, dist) && e in queue && e.node !in dist && e.node != p.target
    requires Expanded(p, queue - multiset{e}, e, after)
    ensures Arriving(p, after, dist[e.node := e.cost])
  {
    hide Short, Sound, Awaited;
    var dist' := dist[e.node := e.cost];
    forall v | v in dist' && Eligible(p.net, p.request.amount, v, p.target)
      ensures Short(p, v) || Awaited(p, after, v, dist'[v] + 1)
    {
      if v == e.node {
        ExpandAwaits(p, queue, dist, e, after);
      } else if !Short(p, v) {
        PopKeepsAwaited(p, queue, e, v, dist[v] + 1);
        MoreAwaited(p, queue - multiset{e}, after, v, dist[v] + 1);
      }
    }
  }

  lemma MoreAwaited(p: Problem, before: Queue, after: Queue, v: string, k: nat)
    requires Awaited(p, before, v, k) && forall f :: f in before ==> f in after
    ensures Awaited(p, after, v, k)
  {
  }

  lemma ExpandKeeps(p: Problem, queue: Queue, dist: Visited, e: Entry, after: Queue)
    requires Searching(p, queue, dist) && e in queue && e.node !in dist && e.node != p.target
    requires forall f :: f in queue ==> e.cost <= f.cost
    requires Expanded(p, queue - multiset{e}, e, after)
    ensures Searching(p, after, dist[e.node := e.cost])
  {
    hide Sound, Minimal, Complete, Arriving, Expanded;
    ExpandKeepsSound(p, queue, dist, e, after);
    ExpandKeepsMinimal(p, queue, dist, e);
    ExpandKeepsComplete(p, queue, dist, e, after);
    ExpandKeepsArriving(p, queue, dist, e, after);
  }

  // ----- the search

  /** Prices a path backwards, hop by hop. */
  method PriceRoute(graph: NetworkGraph, path: seq<string>, r: Request) returns (route: Option<PaymentRoute>)
    requires |path| > 0
    ensures route == RouteOver(graph.View(), path, r)
  {
    hide Capacity, Fee;
    var hops: seq<RouteHop> := [];
    var amount, locktime, totalFee := r.amount, r.baseLocktime, 0;
    ghost var net := graph.View();
    for i := |path| - 1 downto 0
      invariant graph.View() == net
      invariant Price(net, path, r, i) == Some(Priced(hops, amount, totalFee, locktime))
    {
      var u, v := path[i], path[i + 1];
      var fee := 0;
      if v != path[|path| - 1] {
        fee := Fee(r.fees, amount);
        totalFee := totalFee + fee;
      }
      var capacity := graph.GetCapacity(u, v);
      if capacity < amount + fee {
        NeverViable(net, path, r, i);
        return None;
      }
      hops := [RouteHop(u, v, amount + fee, fee, locktime)] + hops;
      amount := amount + fee;
      locktime := locktime + r.delta;
    }
    return Some(PaymentRoute(hops, amount, totalFee));
  }

  lemma {:induction false} NeverViable(net: Net, path: seq<string>, r: Request, i: nat)
    requires i < |path| && Price(net, path, r, i).None?
    ensures Price(net, path, r, 0).None?
    decreases i
  {
    if i > 0 {
      NeverViable(net, path, r, i - 1);
    }
  }

  method PushNeighbours(graph: NetworkGraph, e: Entry, amount: int, queue: Queue, ghost p: Problem) returns (after: Queue)
    requires p.net == graph.View() && amount == p.request.amount
    ensures Expanded(p, queue, e, after)
  {
    hide Edges, ViewEdges, Capacity;
    after := queue;
    forall w
      ensures (e.node, w) in p.net.chans <==> e.node in graph.adj && w in graph.adj[e.node]
    {
      EdgeMember(graph.adj, e.node, w);
      graph.ViewKeys();
    }
    if e.node !in graph.adj {
      return;
    }
    var todo := graph.adj[e.node].Keys;
    while todo != {}
      invariant graph.View() == p.net && todo <= graph.adj[e.node].Keys
      invariant forall f :: f in queue ==> f in after
      invariant forall f :: f in after ==> f in queue || IsExtension(p, e, f)
      invariant forall w :: Eligible(p.net, amount, e.node, w) && w !in e.path ==>
        w in todo || Entry(e.cost + 1, w, e.path + [w]) in after
    {
      var w :| w in todo;
      todo := todo - {w};
      if w !in e.path {
        var capacity := graph.GetCapacity(e.node, w);
        if capacity >= amount {
          after := after + multiset{Entry(e.cost + 1, w, e.path + [w])};
        }
      }
    }
  }

  /** All nodes a path from the source can visit. */
  ghost function Universe(p: Problem): (u: set<string>) {
    {p.source} + set e | e in p.net.chans :: e.1
  }

  lemma EntryInUniverse(p: Problem, e: Entry)
    requires EntryOk(p, e)
    ensures e.node in Universe(p)
  {
    var n := |e.path|;
    if n > 1 {
      assert Eligible(p.net, p.request.amount, e.path[n - 2], e.path[n - 2 + 1]);
      assert (e.path[n - 2], e.node) in p.net.chans;
    }
  }

  /** `route` is what pricing the simple walk `path` from source to target gives. */
  ghost predicate IsRoute(p: Problem, path: seq<string>, route: PaymentRoute) {
    && IsWalk(p.net, p.request.amount, path) && Connects(path, p.source, p.target) && Simple(path)
    && RouteOver(p.net, path, p.request) == Some(route)
  }

  /** The nodes a route visits. A route without hops stays at its source. */
  function TakenPath(source: string, route: PaymentRoute): (path: seq<string>) {
    if route.hops == [] then [source] else Path(route.hops)
  }

  /** The path reaches the target over a shortest path off the target. */
  ghost predicate OverShortest(p: Problem, path: seq<string>) {
    |path| >= 2 && path[|path| - 1] == p.target && Shortest(p, path[..|path| - 1], path[|path| - 2])
  }

  /** Among the neighbours of the target, all that are nearer than `hops` are short. */
  ghost predicate NearerShort(p: Problem, hops: Option<nat>) {
    forall path, v ::
      (Shortest(p, path, v) && Eligible(p.net, p.request.amount, v, p.target) && (hops.Some? ==> |path| < hops.value)) ==>
      Short(p, v)
  }

  predicate Present(p: Problem) {
    p.source in p.net.nodes && p.target in p.net.nodes
  }

  /** What the search promises, for every fee policy. A route found is a priced simple path, over a shortest path off the
      target; every neighbour of the target that is nearer, and if no route is found every neighbour that can be reached, has
      a shortest path that cannot pay the fees. */
  ghost predicate IsAnswer(p: Problem, route: Option<PaymentRoute>) {
    && (route.Some? ==> Present(p) && IsRoute(p, TakenPath(p.source, route.value), route.value))
    && (Present(p) && p.source == p.target ==> route.Some?)
    && (Present(p) && p.source != p.target ==>
      && (route.Some? ==> OverShortest(p, TakenPath(p.source, route.value)))
      && NearerShort(p, if route.Some? then Some(|route.value.hops|) else None))
  }

  /** `find_route`: None stands for RouteNotFoundError. */
  method FindRoute(graph: NetworkGraph, source: string, target: string, r: Request) returns (route: Option<PaymentRoute>)
    ensures IsAnswer(Problem(graph.View(), source, target, r), route)
  {
    hide IsAnswer, Searching, RouteOver, Expanded, Universe;
    ghost var p := Problem(graph.View(), source, target, r);
    if source !in graph.adj || target !in graph.adj {
      NotPresent(p);
      return None;
    }
    var queue := multiset{Entry(0, source, [source])};
    var visited: set<string> := {};
    ghost var dist: Visited := map[];
    StartsSearching(p);
    while queue != multiset{}
      invariant graph.View() == p.net && visited == dist.Keys && Searching(p, queue, dist)
      decreases Universe(p) - visited, |queue|
    {
      var e, rest := PopMinimum(queue);
      PoppedEntry(p, queue, dist, e);
      if e.node == target {
        var found := PriceRoute(graph, e.path, r);
        if found.Some? {
          FoundAnswer(p, queue, dist, e);
          return found;
        }
        DropKeeps(p, queue, dist, e);
        queue := rest;
        continue;
      }
      if e.node in visited {
        SkipKeeps(p, queue, dist, e);
        queue := rest;
        continue;
      }
      var after := PushNeighbours(graph, e, r.amount, rest, p);
      ExpandKeeps(p, queue, dist, e, after);
      visited := visited + {e.node};
      dist := dist[e.node := e.cost];
      queue := after;
    }
    NoAnswer(p, dist);
    return None;
  }

  lemma NotPresent(p: Problem)
    requires p.source !in p.net.nodes || p.target !in p.net.nodes
    ensures IsAnswer(p, None)
  {
  }

  lemma StartsSearching(p: Problem)
    ensures Searching(p, multiset{Entry(0, p.source, [p.source])}, map[])
  {
    var e := Entry(0, p.source, [p.source]);
    assert e in multiset{e} && e.node == p.source && e.cost <= 0;
    assert Queued(multiset{e}, p.source, 0);
  }

  lemma PoppedEntry(p: Problem, queue: Queue, dist: Visited, e: Entry)
    requires Searching(p, queue, dist) && e in queue
    ensures e.node in Universe(p) && e.path != []
  {
    hide Minimal, Complete, Arriving;
    assert EntryOk(p, e);
    EntryInUniverse(p, e);
  }

  /** Below the cost of a least entry every neighbour of the target was tried in vain. */
  lemma NearerTried(p: Problem, queue: Queue, dist: Visited, cost: Option<nat>)
    requires Searching(p, queue, dist)
    requires if cost.Some? then forall f :: f in queue ==> cost.value <= f.cost else queue == multiset{}
    ensures NearerShort(p, cost)
  {
    hide Sound, Minimal, Complete, Short, OffTarget;
    forall path, v | Shortest(p, path, v) && Eligible(p.net, p.request.amount, v, p.target) && (cost.Some? ==> |path| < cost.value)
      ensures Short(p, v)
    {
      FrontierCutsWalk(p, queue, dist, path, v);
      NothingNearer(p, queue, v, dist[v] + 1, cost);
    }
  }

  lemma NothingNearer(p: Problem, queue: Queue, v: string, k: nat, cost: Option<nat>)
    requires if cost.Some? then k < cost.value && forall f :: f in queue ==> cost.value <= f.cost else queue == multiset{}
    ensures !Awaited(p, queue, v, k)
  {
  }

  /** A viable target entry of least cost answers the search. */
  lemma FoundAnswer(p: Problem, queue: Queue, dist: Visited, e: Entry)
    requires Searching(p, queue, dist) && e in queue && e.node == p.target && Present(p)
    requires forall f :: f in queue ==> e.cost <= f.cost
    requires e.path != [] && RouteOver(p.net, e.path, p.request).Some?
    ensures IsAnswer(p, RouteOver(p.net, e.path, p.request))
  {
    hide Minimal, Complete, Arriving, RouteOver, Shortest, NearerShort;
    assert EntryOk(p, e);
    var route := RouteOver(p.net, e.path, p.request).value;
    PathTaken(p, e.path, route);
    NearerTried(p, queue, dist, Some(e.cost));
    if p.source != p.target {
      TargetEntry(p, queue, dist, e);
    }
  }

  lemma NoAnswer(p: Problem, dist: Visited)
    requires Searching(p, multiset{}, dist) && Present(p)
    ensures IsAnswer(p, None)
  {
    hide Minimal, Arriving, NearerShort;
    NearerTried(p, multiset{}, dist, None);
    assert p.source in dist && p.target !in dist;
  }

  /** Every route found is a simple path from source to target with amounts, fees and locktimes as promised. */
  lemma RoutePriced(p: Problem, path: seq<string>, route: PaymentRoute)
    requires IsRoute(p, path, route)
    ensures WellPriced(p.net, path, p.request, route.hops, 0)
    ensures route.totalFee == TotalFees(route.hops)
    ensures route.total == p.request.amount + route.totalFee
    ensures route.total == if route.hops == [] then p.request.amount else route.hops[0].amount
    ensures route.hops != [] ==> Path(route.hops) == path
  {
    hide HopPriced;
    PricedSuffix(p.net, path, p.request, 0);
    forall i | 0 <= i < |route.hops|
      ensures route.hops[i].sender == path[i] && route.hops[i].receiver == path[i + 1]
    {
      assert HopPriced(p.net, path, p.request, route.hops, 0, i);
      HopEnds(p.net, path, p.request, route.hops, 0, i);
    }
  }

  lemma HopEnds(net: Net, path: seq<string>, r: Request, hops: seq<RouteHop>, from: nat, i: nat)
    requires i < |hops| && |hops| + from + 1 == |path| && HopPriced(net, path, r, hops, from, i)
    ensures hops[i].sender == path[from + i] && hops[i].receiver == path[from + i + 1]
  {
  }

  /** A route determines the path it was priced over. */
  lemma PathTaken(p: Problem, path: seq<string>, route: PaymentRoute)
    requires IsRoute(p, path, route)
    ensures path == TakenPath(p.source, route) && |route.hops| == |path| - 1
  {
    RoutePriced(p, path, route);
  }
}
