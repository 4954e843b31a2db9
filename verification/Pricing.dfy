/** Fees and timelocks along a path, computed from the target backwards (network/routing.py, policies.py). */
module Pricing {
  import opened Bytes
  import opened Network

  datatype FeePolicy = FeePolicy(base: int, ratePpm: int)

  /** `RoutingFeePolicy.calculate_fee`; the division by a positive constant rounds down, as in Python. */
  function Fee(p: FeePolicy, amount: int): (fee: int) {
    p.base + (amount * p.ratePpm) / 1_000_000
  }

  /** `TimelockPolicy.calculate_hop_locktime`. */
  function HopLocktime(height: int, distance: int, delta: int): (t: int) {
    height + distance * delta
  }

  datatype RouteHop = RouteHop(sender: string, receiver: string, amount: int, fee: int, locktime: int)

  datatype PaymentRoute = PaymentRoute(hops: seq<RouteHop>, total: int, totalFee: int)

  datatype Request = Request(amount: int, baseLocktime: int, delta: int, fees: FeePolicy)

  /** A priced suffix of a path: its hops, and what the node in front of it has to cover. */
  datatype Priced = Priced(hops: seq<RouteHop>, amount: int, fee: int, locktime: int)

  function Path(hops: seq<RouteHop>): (path: seq<string>) {
    if hops == [] then [] else [hops[0].sender] + seq(|hops|, i requires 0 <= i < |hops| => hops[i].receiver)
  }

  /** The amounts of the suffix from `i` on, working backwards; None when a hop's balance cannot carry its amount. */
  function Price(net: Net, path: seq<string>, r: Request, i: nat): (p: Option<Priced>)
    requires i < |path|
    decreases |path| - i
  {
    if i == |path| - 1 then Some(Priced([], r.amount, 0, r.baseLocktime))
    else
      match Price(net, path, r, i + 1)
      case None => None
      case Some(s) =>
        var fee := if path[i + 1] != path[|path| - 1] then Fee(r.fees, s.amount) else 0;
        if Capacity(net, path[i], path[i + 1]) < s.amount + fee then None
        else
          Some(Priced([RouteHop(path[i], path[i + 1], s.amount + fee, fee, s.locktime)] + s.hops,
                      s.amount + fee, s.fee + fee, s.locktime + r.delta))
  }

  /** The route over a whole path, if it is viable. */
  function RouteOver(net: Net, path: seq<string>, r: Request): (route: Option<PaymentRoute>)
    requires |path| > 0
  {
    match Price(net, path, r, 0)
    case None => None
    case Some(p) => Some(PaymentRoute(p.hops, p.amount, p.fee))
  }

  predicate Simple(path: seq<string>) {
    forall i, j :: 0 <= i < j < |path| ==> path[i] != path[j]
  }

  function TotalFees(hops: seq<RouteHop>): (f: int) {
    if hops == [] then 0 else hops[0].fee + TotalFees(hops[1..])
  }

  /** The amount the hop after `i` carries, or the payment itself behind the last hop. */
  function Onward(hops: seq<RouteHop>, r: Request, i: nat): (a: int)
    requires i < |hops|
  {
    if i + 1 < |hops| then hops[i + 1].amount else r.amount
  }

  /** What a priced path promises of one hop. */
  predicate HopPriced(net: Net, path: seq<string>, r: Request, hops: seq<RouteHop>, from: nat, i: nat)
    requires i < |hops| && |hops| + from + 1 == |path|
  {
    var hop := hops[i];
    && hop.sender == path[from + i] && hop.receiver == path[from + i + 1]
    && Capacity(net, hop.sender, hop.receiver) >= hop.amount
    && hop.amount == Onward(hops, r, i) + hop.fee
    && hop.fee == (if i + 1 < |hops| then Fee(r.fees, hops[i + 1].amount) else 0)
    && hop.locktime == HopLocktime(r.baseLocktime, |hops| - 1 - i, r.delta)
  }

  predicate WellPriced(net: Net, path: seq<string>, r: Request, hops: seq<RouteHop>, from: nat) {
    |hops| + from + 1 == |path| && forall i :: 0 <= i < |hops| ==> HopPriced(net, path, r, hops, from, i)
  }

  lemma HopShifts(net: Net, path: seq<string>, r: Request, first: RouteHop, rest: seq<RouteHop>, from: nat, i: nat)
    requires i < |rest| && |rest| + from + 2 == |path|
    requires HopPriced(net, path, r, rest, from + 1, i)
    ensures HopPriced(net, path, r, [first] + rest, from, i + 1)
  {
    hide Fee, Capacity, HopLocktime;
    var hops := [first] + rest;
    assert hops[i + 1] == rest[i];
    if i + 1 < |rest| {
      assert hops[i + 2] == rest[i + 1];
    }
  }

  lemma LocktimeStep(height: int, distance: int, delta: int)
    ensures HopLocktime(height, 0, delta) == height
    ensures HopLocktime(height, distance + 1, delta) == HopLocktime(height, distance, delta) + delta
  {
    assert (distance + 1) * delta == distance * delta + delta;
  }

  /** Working backwards gives every hop its amount, fee and locktime, within its balance. */
  lemma {:induction false} PricedSuffix(net: Net, path: seq<string>, r: Request, i: nat)
    requires i < |path| && Simple(path) && Price(net, path, r, i).Some?
    ensures var p := Price(net, path, r, i).value;
      && WellPriced(net, path, r, p.hops, i)
      && p.fee == TotalFees(p.hops)
      && p.amount == r.amount + p.fee
      && p.amount == (if p.hops == [] then r.amount else p.hops[0].amount)
      && p.locktime == HopLocktime(r.baseLocktime, |p.hops|, r.delta)
    decreases |path| - i
  {
    hide Fee, Capacity, HopLocktime, HopPriced;
    LocktimeStep(r.baseLocktime, 0, r.delta);
    if i < |path| - 1 {
      PricedSuffix(net, path, r, i + 1);
      var s, p := Price(net, path, r, i + 1).value, Price(net, path, r, i).value;
      assert p.hops[1..] == s.hops;
      LocktimeStep(r.baseLocktime, |s.hops|, r.delta);
      forall j | 0 <= j < |p.hops|
        ensures HopPriced(net, path, r, p.hops, i, j)
      {
        if j > 0 {
          HopShifts(net, path, r, p.hops[0], s.hops, i, j - 1);
        } else {
          FirstHopPriced(net, path, r, i);
        }
      }
    }
  }

  lemma FirstHopPriced(net: Net, path: seq<string>, r: Request, i: nat)
    requires i < |path| - 1 && Simple(path) && Price(net, path, r, i).Some?
    requires var s := Price(net, path, r, i + 1).value;
      && |s.hops| + i + 2 == |path|
      && s.amount == (if s.hops == [] then r.amount else s.hops[0].amount)
      && s.locktime == HopLocktime(r.baseLocktime, |s.hops|, r.delta)
    ensures HopPriced(net, path, r, Price(net, path, r, i).value.hops, i, 0)
  {
    hide Fee, Capacity, HopLocktime;
    var s, p := Price(net, path, r, i + 1).value, Price(net, path, r, i).value;
    if s.hops != [] {
      assert p.hops[1] == s.hops[0];
      assert path[i + 1] != path[|path| - 1];
    }
  }

  // ----- fees compound downwards

  /** The payment after `j` charged hops. */
  function Charged(fees: FeePolicy, amount: int, j: nat): (x: int) {
    if j == 0 then amount else Charged(fees, amount, j - 1) + Fee(fees, Charged(fees, amount, j - 1))
  }

  /** The same without rounding: x' = x * (1 + rate / 10^6) + base. */
  function Exact(fees: FeePolicy, amount: int, j: nat): (x: real) {
    if j == 0 then amount as real else Exact(fees, amount, j - 1) * Growth(fees) + fees.base as real
  }

  function Growth(fees: FeePolicy): (q: real) {
    1.0 + fees.ratePpm as real / 1_000_000.0
  }

  /** 1 + q + ... + q^(j-1). */
  function Geometric(q: real, j: nat): (s: real) {
    if j == 0 then 0.0 else Geometric(q, j - 1) * q + 1.0
  }

  /** One rounding loses less than one. */
  lemma FeeRounding(fees: FeePolicy, amount: int)
    ensures var exact := amount as real * Growth(fees) + fees.base as real;
      exact - 1.0 < (amount + Fee(fees, amount)) as real <= exact
  {
    var m := amount * fees.ratePpm;
    var q, rest := m / 1_000_000, m % 1_000_000;
    assert m == q * 1_000_000 + rest;
    RealProduct(amount, fees.ratePpm);
    assert amount as real * Growth(fees) == amount as real + m as real / 1_000_000.0;
    assert m as real / 1_000_000.0 == q as real + rest as real / 1_000_000.0;
  }

  lemma RealProduct(a: int, b: int)
    ensures (a as real) * (b as real) == (a * b) as real
  {
  }

  lemma ScaleGap(gap: real, bound: real, q: real)
    requires q >= 1.0 && 0.0 <= gap <= bound
    ensures 0.0 <= gap * q <= bound * q
  {
  }

  /** One hop scales the gap to the exact amount by the growth factor and adds less than one. */
  lemma GapStep(x: real, next: real, y: real, base: real, q: real, bound: real)
    requires q >= 1.0 && 0.0 <= y - x <= bound
    requires x * q + base - 1.0 < next <= x * q + base
    ensures 0.0 <= y * q + base - next < bound * q + 1.0
  {
    ScaleGap(y - x, bound, q);
    assert (y - x) * q == y * q - x * q;
  }

  /** After `j` charged hops the amount never exceeds the exact recurrence and falls short of it by less than the
      geometric sum of the growth factor. */
  lemma {:induction false} RoundingBound(fees: FeePolicy, amount: int, j: nat)
    requires fees.ratePpm >= 0
    ensures Charged(fees, amount, j) as real <= Exact(fees, amount, j)
    ensures j == 0 ==> Exact(fees, amount, j) == Charged(fees, amount, j) as real
    ensures j >= 1 ==> Exact(fees, amount, j) - Charged(fees, amount, j) as real < Geometric(Growth(fees), j)
  {
    hide Fee, Growth;
    if j > 0 {
      RoundingBound(fees, amount, j - 1);
      var q, base := Growth(fees), fees.base as real;
      var x, next := Charged(fees, amount, j - 1), Charged(fees, amount, j);
      var y, bound := Exact(fees, amount, j - 1), Geometric(q, j - 1);
      assert next == x + Fee(fees, x) && Exact(fees, amount, j) == y * q + base && Geometric(q, j) == bound * q + 1.0;
      assert j == 1 ==> bound == 0.0;
      FeeRounding(fees, x);
      GrowthAtLeastOne(fees);
      hide Geometric, Charged, Exact;
      GapStep(x as real, next as real, y, base, q, bound);
    }
  }

  lemma GrowthAtLeastOne(fees: FeePolicy)
    requires fees.ratePpm >= 0
    ensures Growth(fees) >= 1.0
  {
  }

  lemma FeeMonotone(fees: FeePolicy, a: int, b: int)
    requires fees.ratePpm >= 0 && a <= b
    ensures Fee(fees, a) <= Fee(fees, b)
  {
    var m, n := a * fees.ratePpm, b * fees.ratePpm;
    assert (b - a) * fees.ratePpm >= 0;
    assert m <= n;
  }

  /** Hop amounts grow with the payment, so a path viable for one amount is viable for every smaller one. */
  lemma {:induction false} ViableForLess(net: Net, path: seq<string>, r: Request, less: int, i: nat)
    requires i < |path| && less <= r.amount && r.fees.ratePpm >= 0 && Price(net, path, r, i).Some?
    ensures Price(net, path, r.(amount := less), i).Some?
    ensures Price(net, path, r.(amount := less), i).value.amount <= Price(net, path, r, i).value.amount
    decreases |path| - i
  {
    if i < |path| - 1 {
      ViableForLess(net, path, r, less, i + 1);
      FeeMonotone(r.fees, Price(net, path, r.(amount := less), i + 1).value.amount, Price(net, path, r, i + 1).value.amount);
    }
  }

  /** The amounts of a priced path are the charged amounts, counted from the target. */
  lemma {:induction false} HopAmounts(net: Net, path: seq<string>, r: Request, i: nat)
    requires i < |path| && Simple(path) && Price(net, path, r, i).Some?
    ensures Price(net, path, r, i).value.amount ==
      if i == |path| - 1 then r.amount else Charged(r.fees, r.amount, |path| - 2 - i)
    decreases |path| - i
  {
    if i < |path| - 1 {
      HopAmounts(net, path, r, i + 1);
    }
  }

  /** Without fees every path with enough balance for the payment is viable and costs nothing extra. */
  lemma {:induction false} FreePathViable(net: Net, path: seq<string>, r: Request, i: nat)
    requires i < |path| && IsWalk(net, r.amount, path) && r.fees == FeePolicy(0, 0)
    ensures Price(net, path, r, i).Some?
    ensures Price(net, path, r, i).value.amount == r.amount
    decreases |path| - i
  {
    if i < |path| - 1 {
      FreePathViable(net, path, r, i + 1);
      assert Eligible(net, r.amount, path[i], path[i + 1]);
    }
  }
}
