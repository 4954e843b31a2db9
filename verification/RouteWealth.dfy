/** Who pays and who earns when a found route is executed. */
module RouteWealth {
  import opened Bytes
  import opened Channel
  import opened MapSums
  import opened Numbers
  import opened Network
  import opened Pricing
  import opened RouteSearch
  import opened RouteCompleteness
  import opened RouteExecution

  function Holding(x: string): (w: ((string, string), Chan) -> int) {
    (e: (string, string), c: Chan) => if e.0 == x then Balance(c, x) else 0
  }

  /** A node's spendable balance over all its channels. */
  ghost function Wealth(net: Net, x: string): (w: int) {
    Sum(net.chans, Holding(x))
  }

  lemma BalanceIgnoresSequence(a: Chan, b: Chan, x: string)
    requires a.(sequence := 0) == b.(sequence := 0)
    ensures Balance(a, x) == Balance(b, x)
  {
    assert a == b.(sequence := a.sequence);
  }

  lemma AlikeWealth(a: Net, b: Net, x: string)
    requires Alike(a, b)
    ensures Wealth(a, x) == Wealth(b, x)
  {
    forall e | e in a.chans
      ensures Holding(x)(e, a.chans[e]) == Holding(x)(e, b.chans[e])
    {
      BalanceIgnoresSequence(a.chans[e], b.chans[e], x);
    }
    SumSame(a.chans, b.chans, Holding(x));
  }

  /** What one hop moves for node `x`. */
  function HopFlow(hop: RouteHop, x: string): (f: int) {
    (if hop.receiver == x then hop.amount else 0) - (if hop.sender == x then hop.amount else 0)
  }

  function Flow(hops: seq<RouteHop>, x: string): (f: int) {
    if hops == [] then 0 else HopFlow(hops[0], x) + Flow(hops[1..], x)
  }

  /** Replacing one channel changes its two parties' wealth by what changes in it. */
  lemma SetWealth(net: Net, hop: RouteHop, c: Chan, x: string)
    requires (hop.sender, hop.receiver) in net.chans && (hop.receiver, hop.sender) in net.chans && hop.sender != hop.receiver
    requires net.chans[(hop.receiver, hop.sender)] == ChannelOf(net, hop)
    ensures Wealth(SetChannel(net, hop.sender, hop.receiver, c), x) ==
      Wealth(net, x) + if x == hop.sender || x == hop.receiver then Balance(c, x) - Balance(ChannelOf(net, hop), x) else 0
  {
    hide Balance;
    var half := net.chans[(hop.sender, hop.receiver) := c];
    SumUpdate(net.chans, Holding(x), (hop.sender, hop.receiver), c);
    SumUpdate(half, Holding(x), (hop.receiver, hop.sender), c);
  }

  lemma TransferBalances(c: Chan, hop: RouteHop)
    requires PartiesAre(c, hop.sender, hop.receiver)
    ensures var d := Transfer(c, hop.sender, hop.amount);
      && PartiesAre(d, hop.sender, hop.receiver)
      && Balance(d, hop.sender) == Balance(c, hop.sender) - hop.amount
      && Balance(d, hop.receiver) == Balance(c, hop.receiver) + hop.amount
  {
  }

  lemma TransferWealth(net: Net, hop: RouteHop, x: string)
    requires Shared(net) && (hop.sender, hop.receiver) in net.chans
    ensures var c := Transfer(ChannelOf(net, hop), hop.sender, hop.amount);
      var after := SetChannel(net, hop.sender, hop.receiver, c);
      Shared(after) && after.chans.Keys == net.chans.Keys && Wealth(after, x) == Wealth(net, x) + HopFlow(hop, x)
  {
    hide Balance, Transfer, Wealth;
    var c := Transfer(ChannelOf(net, hop), hop.sender, hop.amount);
    assert (hop.receiver, hop.sender) in net.chans;
    TransferBalances(ChannelOf(net, hop), hop);
    SetKeepsShared(net, hop, c);
    SetWealth(net, hop, c, x);
  }

  lemma {:induction false} TransferAllWealth(net: Net, hops: seq<RouteHop>, x: string)
    requires Shared(net) && forall i :: 0 <= i < |hops| ==> (hops[i].sender, hops[i].receiver) in net.chans
    ensures Shared(TransferAll(net, hops)) && TransferAll(net, hops).chans.Keys == net.chans.Keys
    ensures Wealth(TransferAll(net, hops), x) == Wealth(net, x) + Flow(hops, x)
  {
    hide Shared, Transfer, SetChannel, Wealth;
    if hops != [] {
      TransferAllWealth(net, hops[1..], x);
      TransferWealth(TransferAll(net, hops[1..]), hops[0], x);
    }
  }

  /** The forwarder behind hop `i - 1` keeps that hop's fee. */
  predicate EarnsFee(path: seq<string>, hops: seq<RouteHop>, from: nat, i: nat)
    requires |hops| + from + 1 == |path| && 0 < i < |hops|
  {
    Flow(hops, path[from + i]) == hops[i - 1].fee
  }

  /** The change a node on the priced path can expect: its fee as a forwarder, the payment as the target, the cost as the source. */
  ghost predicate ExpectedFlow(path: seq<string>, r: Request, hops: seq<RouteHop>, from: nat)
    requires |hops| + from + 1 == |path|
  {
    && (hops != [] ==> Flow(hops, path[from]) == -hops[0].amount)
    && (hops != [] ==> Flow(hops, path[|path| - 1]) == r.amount)
    && (forall i :: 0 < i < |hops| ==> EarnsFee(path, hops, from, i))
    && (forall x :: x !in path[from..] ==> Flow(hops, x) == 0)
  }

  lemma {:induction false} FlowOfPriced(net: Net, path: seq<string>, r: Request, hops: seq<RouteHop>, from: nat)
    requires Simple(path) && WellPriced(net, path, r, hops, from)
    ensures ExpectedFlow(path, r, hops, from)
    decreases |hops|
  {
    if hops != [] {
      TailPriced(net, path, r, hops, from);
      FlowOfPriced(net, path, r, hops[1..], from + 1);
      FlowStep(net, path, r, hops, from);
    }
  }

  lemma TailPriced(net: Net, path: seq<string>, r: Request, hops: seq<RouteHop>, from: nat)
    requires hops != [] && WellPriced(net, path, r, hops, from)
    ensures WellPriced(net, path, r, hops[1..], from + 1)
  {
    hide Fee, Capacity, HopLocktime;
    var rest, next := hops[1..], from + 1;
    forall i | 0 <= i < |rest|
      ensures HopPriced(net, path, r, rest, next, i)
    {
      assert HopPriced(net, path, r, hops, from, i + 1);
    }
  }

  lemma FlowStep(net: Net, path: seq<string>, r: Request, hops: seq<RouteHop>, from: nat)
    requires hops != [] && Simple(path) && WellPriced(net, path, r, hops, from)
    requires |hops[1..]| + from + 2 == |path| && ExpectedFlow(path, r, hops[1..], from + 1)
    ensures ExpectedFlow(path, r, hops, from)
  {
    hide Fee, Capacity, HopLocktime;
    var rest := hops[1..];
    var u, v := path[from], path[from + 1];
    assert HopPriced(net, path, r, hops, from, 0);
    forall x
      ensures Flow(hops, x) == (if x == v then hops[0].amount else 0) - (if x == u then hops[0].amount else 0) + Flow(rest, x)
    {
    }
    assert u !in path[from + 1..];
    if rest == [] {
      assert v == path[|path| - 1];
    }
    forall i | 0 < i < |hops|
      ensures EarnsFee(path, hops, from, i)
    {
      if i == 1 {
        assert Flow(rest, v) == -rest[0].amount;
      } else {
        assert EarnsFee(path, rest, from + 1, i - 1);
      }
    }
    forall x | x !in path[from..]
      ensures Flow(hops, x) == 0
    {
      assert u == path[from..][0] && v == path[from..][1];
      assert forall y :: y in path[from + 1..] ==> y in path[from..];
    }
  }

  // ----- a found route can be executed

  /** The payment's ids are fresh in its channels, and those channels are open. */
  predicate Executable(net: Net, p: Payment) {
    && |p.ids| == |p.hops|
    && forall i :: 0 <= i < |p.hops| && (p.hops[i].sender, p.hops[i].receiver) in net.chans ==>
      ChannelOf(net, p.hops[i]).state == OPEN && p.ids[i] !in ChannelOf(net, p.hops[i]).htlcs
  }

  /** Every hop of a found route has its own channel with enough balance. */
  lemma RouteFunded(problem: Problem, path: seq<string>, route: PaymentRoute)
    requires IsRoute(problem, path, route) && Shared(problem.net)
    ensures Funded(problem.net, route.hops)
  {
    hide Fee, HopLocktime, Onward, Shared;
    RoutePriced(problem, path, route);
    forall i | 0 <= i < |route.hops|
      ensures HopFunded(problem.net, route.hops[i])
    {
      assert HopPriced(problem.net, path, problem.request, route.hops, 0, i);
      assert Eligible(problem.net, problem.request.amount, path[i], path[i + 1]);
    }
    forall i, j | 0 <= i < j < |route.hops|
      ensures Apart(route.hops[i], route.hops[j])
    {
      HopEnds(problem.net, path, problem.request, route.hops, 0, i);
      HopEnds(problem.net, path, problem.request, route.hops, 0, j);
    }
  }

  /** A found route can be locked from end to end exactly when all its channels are open, whatever ids are used: no hop
      runs out of balance, even with all the others locked. The search does not look at channel states. */
  lemma RouteLocks(problem: Problem, path: seq<string>, route: PaymentRoute, p: Payment)
    requires IsRoute(problem, path, route) && Shared(problem.net)
    requires p.hops == route.hops && |p.ids| == |p.hops|
    ensures Funded(problem.net, p.hops)
    ensures LockAll(problem.net, p).Some? <==> AllOpen(problem.net, p.hops)
  {
    hide IsRoute, Funded;
    RouteFunded(problem, path, route);
    LockNeedsOpen(problem.net, p);
  }

  /** One settled channel from S to T. */
  function SettledChannel(): (net: Net) {
    WithChannel(Net({}, map[]), Opened("S", "T", 10).(state := SETTLED))
  }

  lemma SettledReachable()
    ensures Shared(SettledChannel()) && Reachable(SettledChannel(), 10, "S", "T")
  {
    var net := SettledChannel();
    assert Eligible(net, 10, "S", "T");
    assert IsWalk(net, 10, ["S", "T"]);
  }

  /** The search returns routes that cannot be locked: over a settled channel it finds one, and locking it fails under any ids. */
  lemma ClosedRouteFound(route: Option<PaymentRoute>, ids: seq<string>, hash: string)
    requires IsAnswer(Problem(SettledChannel(), "S", "T", Request(10, 100, 40, FeePolicy(0, 0))), route)
    requires route.Some? ==> |ids| == |route.value.hops|
    ensures route.Some? && LockAll(SettledChannel(), Payment(route.value.hops, ids, hash)).None?
  {
    hide IsRoute, Reachable, Shared, Funded, LockAll, OverShortest, NearerShort;
    var problem := Problem(SettledChannel(), "S", "T", Request(10, 100, 40, FeePolicy(0, 0)));
    SettledReachable();
    FreeFound(problem, route);
    var path, hops := TakenPath("S", route.value), route.value.hops;
    RouteLocks(problem, path, route.value, Payment(hops, ids, hash));
    PathTaken(problem, path, route.value);
    SomeHop(problem, path, route.value);
    assert !HopOpen(SettledChannel(), hops[0]);
  }

  /** A route between different nodes has a hop. */
  lemma SomeHop(problem: Problem, path: seq<string>, route: PaymentRoute)
    requires IsRoute(problem, path, route) && problem.source != problem.target
    ensures route.hops != []
  {
    PathTaken(problem, path, route);
  }

  /** With open channels and fresh ids a found route is ready to be executed. */
  lemma RouteReady(problem: Problem, path: seq<string>, route: PaymentRoute, p: Payment)
    requires IsRoute(problem, path, route) && p.hops == route.hops
    requires Shared(problem.net) && Executable(problem.net, p)
    ensures Ready(problem.net, p)
  {
    hide IsRoute, Shared, Apart;
    RouteFunded(problem, path, route);
    forall i | 0 <= i < |p.hops|
      ensures HopReady(problem.net, p.hops[i], p.ids[i])
    {
      assert HopFunded(problem.net, p.hops[i]);
    }
  }

  /** Executing a ready payment changes every node's wealth by its flow over the hops. */
  lemma ExecutedFlow(net: Net, p: Payment, sha: PreimageHash, preimage: string, x: string)
    requires Ready(net, p) && sha(preimage) == Some(p.hash)
    ensures LockAll(net, p).Some?
    ensures RedeemAll(LockAll(net, p).value, p, sha, preimage).Some?
    ensures Wealth(RedeemAll(LockAll(net, p).value, p, sha, preimage).value, x) == Wealth(net, x) + Flow(p.hops, x)
  {
    hide Wealth, LockAll, RedeemAll, Flow, TransferAll, Alike;
    RedeemedRefinesTransfer(net, p, sha, preimage);
    AlikeWealth(RedeemAll(LockAll(net, p).value, p, sha, preimage).value, TransferAll(net, p.hops), x);
    ReadyHops(net, p);
    TransferAllWealth(net, p.hops, x);
  }

  /** The source paid the route's total, the target earned the amount, every forwarder its fee, and nobody else anything. */
  ghost predicate Paid(net: Net, after: Net, path: seq<string>, amount: int, route: PaymentRoute)
    requires |route.hops| + 1 == |path|
  {
    && Wealth(after, path[0]) == Wealth(net, path[0]) - route.total
    && Wealth(after, path[|path| - 1]) == Wealth(net, path[|path| - 1]) + amount
    && (forall i :: 0 < i < |route.hops| ==> Wealth(after, path[i]) == Wealth(net, path[i]) + route.hops[i - 1].fee)
    && (forall x :: x !in path ==> Wealth(after, x) == Wealth(net, x))
  }

  /** Locking every hop of a found route and redeeming back from the target costs the source exactly the route's total,
      pays the target exactly the amount and each forwarder exactly its fee, and changes nobody else. */
  lemma RouteSettles(problem: Problem, path: seq<string>, route: PaymentRoute, p: Payment, sha: PreimageHash, preimage: string)
    requires IsRoute(problem, path, route) && p.hops == route.hops && route.hops != []
    requires Shared(problem.net) && Executable(problem.net, p) && sha(preimage) == Some(p.hash)
    ensures LockAll(problem.net, p).Some?
    ensures RedeemAll(LockAll(problem.net, p).value, p, sha, preimage).Some?
    ensures |route.hops| + 1 == |path| && path[0] == problem.source && path[|path| - 1] == problem.target
    ensures Paid(problem.net, RedeemAll(LockAll(problem.net, p).value, p, sha, preimage).value, path, problem.request.amount, route)
  {
    hide Wealth, LockAll, RedeemAll, HopPriced, Flow, Ready, RouteOver, Price;
    RouteReady(problem, path, route, p);
    RoutePriced(problem, path, route);
    FlowOfPriced(problem.net, path, problem.request, route.hops, 0);
    ExecutedFlow(problem.net, p, sha, preimage, problem.source);
    ExecutedFlow(problem.net, p, sha, preimage, problem.target);
    var net, after := problem.net, RedeemAll(LockAll(problem.net, p).value, p, sha, preimage).value;
    forall i | 0 < i < |route.hops|
      ensures Wealth(after, path[i]) == Wealth(net, path[i]) + route.hops[i - 1].fee
    {
      assert EarnsFee(path, route.hops, 0, i);
      ExecutedFlow(net, p, sha, preimage, path[i]);
    }
    forall x | x !in path
      ensures Wealth(after, x) == Wealth(net, x)
    {
      assert path[0..] == path;
      ExecutedFlow(net, p, sha, preimage, x);
    }
  }

  lemma ReadyHops(net: Net, p: Payment)
    requires Ready(net, p)
    ensures forall i :: 0 <= i < |p.hops| ==> (p.hops[i].sender, p.hops[i].receiver) in net.chans
  {
    forall i | 0 <= i < |p.hops|
      ensures (p.hops[i].sender, p.hops[i].receiver) in net.chans
    {
      assert HopReady(net, p.hops[i], p.ids[i]);
    }
  }

  /** Locking every hop of a found route and refunding after expiry leaves every channel as it was, sequence numbers aside. */
  lemma RouteRefunds(problem: Problem, path: seq<string>, route: PaymentRoute, p: Payment, height: int)
    requires IsRoute(problem, path, route) && p.hops == route.hops
    requires Shared(problem.net) && Executable(problem.net, p) && AllExpired(route.hops, height)
    ensures LockAll(problem.net, p).Some?
    ensures RefundAll(LockAll(problem.net, p).value, p, height).Some?
    ensures Alike(RefundAll(LockAll(problem.net, p).value, p, height).value, problem.net)
  {
    RouteReady(problem, path, route, p);
    RefundedRestores(problem.net, p, height);
  }

  /** With a non-negative delta the source's own hop expires last, so it alone decides. */
  lemma SourceExpiresLast(problem: Problem, path: seq<string>, route: PaymentRoute, height: int)
    requires IsRoute(problem, path, route) && route.hops != [] && problem.request.delta >= 0
    ensures AllExpired(route.hops, height) <==> height >= route.hops[0].locktime
  {
    hide IsRoute, Capacity, Fee, HopLocktime, Onward;
    RoutePriced(problem, path, route);
    var n := |route.hops|;
    assert HopPriced(problem.net, path, problem.request, route.hops, 0, 0);
    forall i | 0 <= i < n
      ensures route.hops[i].locktime <= route.hops[0].locktime
    {
      assert HopPriced(problem.net, path, problem.request, route.hops, 0, i);
      LocktimesFall(problem.request, n - 1 - i, n - 1);
    }
  }

  lemma LocktimesFall(r: Request, near: int, far: int)
    requires 0 <= near <= far && r.delta >= 0
    ensures HopLocktime(r.baseLocktime, near, r.delta) <= HopLocktime(r.baseLocktime, far, r.delta)
  {
    MulMonotone(near, far, r.delta);
  }

  /** Registering a channel between two different, named nodes keeps one shared channel per pair. */
  lemma RegisteredShared(net: Net, c: Chan)
    requires Shared(net) && PartiesAre(c, c.sender, c.receiver)
    ensures Shared(WithChannel(net, c))
  {
    var after := WithChannel(net, c);
    forall e | e in after.chans
      ensures (e.1, e.0) in after.chans && after.chans[(e.1, e.0)] == after.chans[e] && PartiesAre(after.chans[e], e.0, e.1)
    {
      assert e == (e.0, e.1);
      if e != (c.sender, c.receiver) && e != (c.receiver, c.sender) {
        assert e in net.chans;
      }
    }
  }
}
