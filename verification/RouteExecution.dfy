/** Executing a route on the channels: lock forwards, then redeem or refund backwards (domain/node.py, domain/channel.py). */
module RouteExecution {
  import opened Bytes
  import opened Channel
  import opened Network
  import opened Pricing

  /** Adjacent nodes share one channel, whose parties are exactly the two of them. Aliases are not empty. */
  ghost predicate Shared(net: Net) {
    forall e :: e in net.chans ==>
      && (e.1, e.0) in net.chans && net.chans[(e.1, e.0)] == net.chans[e]
      && PartiesAre(net.chans[e], e.0, e.1)
  }

  predicate PartiesAre(c: Chan, u: string, v: string) {
    u != v && u != "" && v != "" && ((c.sender == u && c.receiver == v) || (c.sender == v && c.receiver == u))
  }

  function SetChannel(net: Net, u: string, v: string, c: Chan): (r: Net) {
    net.(chans := net.chans[(u, v) := c][(v, u) := c])
  }

  /** The route of one payment: its hops, one HTLC id per hop, and the payment hash. */
  datatype Payment = Payment(hops: seq<RouteHop>, ids: seq<string>, hash: string)

  function Rest(p: Payment): (q: Payment)
    requires p.hops != [] && p.ids != []
  {
    p.(hops := p.hops[1..], ids := p.ids[1..])
  }

  function ChannelOf(net: Net, hop: RouteHop): (c: Chan)
    requires (hop.sender, hop.receiver) in net.chans
  {
    net.chans[(hop.sender, hop.receiver)]
  }

  function OnHop(net: Net, hop: RouteHop, r: (Outcome, Chan)): (net': Option<Net>) {
    if r.0 == Done then Some(SetChannel(net, hop.sender, hop.receiver, r.1)) else None
  }

  function Contract(hop: RouteHop, hash: string): (h: Htlc) {
    Htlc(hash, hop.amount, hop.locktime, hop.sender, false, false)
  }

  /** `route_htlc_payment` at the hop's sender: None stands for an exception. */
  function LockHop(net: Net, hop: RouteHop, id: string, hash: string): (r: Option<Net>) {
    if (hop.sender, hop.receiver) !in net.chans then None
    else OnHop(net, hop, Add(ChannelOf(net, hop), id, Contract(hop, hash), hop.sender))
  }

  /** `fulfill_htlc` for the hop. */
  function RedeemHop(net: Net, hop: RouteHop, id: string, sha: PreimageHash, preimage: string): (r: Option<Net>) {
    if (hop.sender, hop.receiver) !in net.chans then None
    else OnHop(net, hop, Redeem(ChannelOf(net, hop), sha, id, preimage))
  }

  /** `refund_htlc` at the hop's sender. */
  function RefundHop(net: Net, hop: RouteHop, id: string, height: int): (r: Option<Net>) {
    if (hop.sender, hop.receiver) !in net.chans then None
    else OnHop(net, hop, Refund(ChannelOf(net, hop), id, height))
  }

  /** The source locks first, then each forwarder in turn. */
  function LockAll(net: Net, p: Payment): (r: Option<Net>)
    requires |p.ids| == |p.hops|
    decreases |p.hops|
  {
    if p.hops == [] then Some(net)
    else
      match LockHop(net, p.hops[0], p.ids[0], p.hash)
      case None => None
      case Some(next) => LockAll(next, Rest(p))
  }

  /** The target redeems first, and the preimage travels back. */
  function RedeemAll(net: Net, p: Payment, sha: PreimageHash, preimage: string): (r: Option<Net>)
    requires |p.ids| == |p.hops|
    decreases |p.hops|
  {
    if p.hops == [] then Some(net)
    else
      match RedeemAll(net, Rest(p), sha, preimage)
      case None => None
      case Some(next) => RedeemHop(next, p.hops[0], p.ids[0], sha, preimage)
  }

  function RefundAll(net: Net, p: Payment, height: int): (r: Option<Net>)
    requires |p.ids| == |p.hops|
    decreases |p.hops|
  {
    if p.hops == [] then Some(net)
    else
      match RefundAll(net, Rest(p), height)
      case None => None
      case Some(next) => RefundHop(next, p.hops[0], p.ids[0], height)
  }

  // ----- one channel

  /** An immediate transfer of `amount` from `u` to the other side. */
  function Transfer(c: Chan, u: string, amount: int): (r: Chan) {
    if c.sender == u then c.(senderBalance := c.senderBalance - amount, receiverBalance := c.receiverBalance + amount)
    else c.(senderBalance := c.senderBalance + amount, receiverBalance := c.receiverBalance - amount)
  }

  lemma LockThenResolve(c: Chan, hop: RouteHop, id: string, hash: string, sha: PreimageHash, preimage: string, height: int)
    requires PartiesAre(c, hop.sender, hop.receiver) && id !in c.htlcs
    ensures var (outcome, locked) := Add(c, id, Contract(hop, hash), hop.sender);
      && (outcome == Done <==> c.state == OPEN && Balance(c, hop.sender) >= hop.amount)
      && (outcome == Done ==>
        && locked.sender == c.sender && locked.receiver == c.receiver
        && Redeem(locked, sha, id, preimage) ==
          (if sha(preimage) == Some(hash) then (Done, Transfer(c, hop.sender, hop.amount).(sequence := c.sequence + 2))
           else (InvalidPreimage, locked))
        && Refund(locked, id, height) ==
          (if height >= hop.locktime then (Done, c.(sequence := c.sequence + 2)) else (NotExpired, locked)))
  {
    var locked := Add(c, id, Contract(hop, hash), hop.sender).1;
    assert Add(c, id, Contract(hop, hash), hop.sender).0 == Done ==> locked.htlcs - {id} == c.htlcs;
  }

  // ----- the whole route

  predicate Apart(h: RouteHop, g: RouteHop) {
    (h.sender, h.receiver) != (g.sender, g.receiver) && (h.sender, h.receiver) != (g.receiver, g.sender)
  }

  /** The hop's channel is open, its id is fresh there, and its sender can cover the amount. */
  predicate HopReady(net: Net, hop: RouteHop, id: string) {
    && (hop.sender, hop.receiver) in net.chans
    && ChannelOf(net, hop).state == OPEN
    && id !in ChannelOf(net, hop).htlcs
    && Capacity(net, hop.sender, hop.receiver) >= hop.amount
  }

  ghost predicate Ready(net: Net, p: Payment) {
    && Shared(net) && |p.ids| == |p.hops|
    && (forall i :: 0 <= i < |p.hops| ==> HopReady(net, p.hops[i], p.ids[i]))
    && (forall i, j :: 0 <= i < j < |p.hops| ==> Apart(p.hops[i], p.hops[j]))
  }

  lemma SetKeepsShared(net: Net, hop: RouteHop, c: Chan)
    requires Shared(net) && (hop.sender, hop.receiver) in net.chans && PartiesAre(c, hop.sender, hop.receiver)
    ensures Shared(SetChannel(net, hop.sender, hop.receiver, c))
  {
  }

  predicate ApartFrom(hop: RouteHop, hops: seq<RouteHop>) {
    forall i :: 0 <= i < |hops| ==> Apart(hop, hops[i])
  }

  /** The channel of a ready payment's first hop, before and after locking. */
  lemma FirstLock(net: Net, p: Payment)
    requires Ready(net, p) && p.hops != []
    ensures var hop := p.hops[0];
      && (hop.sender, hop.receiver) in net.chans && (hop.receiver, hop.sender) in net.chans
      && PartiesAre(ChannelOf(net, hop), hop.sender, hop.receiver) && p.ids[0] !in ChannelOf(net, hop).htlcs
      && ApartFrom(hop, p.hops[1..])
      && var (outcome, locked) := Add(ChannelOf(net, hop), p.ids[0], Contract(hop, p.hash), hop.sender);
      && outcome == Done && PartiesAre(locked, hop.sender, hop.receiver)
      && LockHop(net, hop, p.ids[0], p.hash) == Some(SetChannel(net, hop.sender, hop.receiver, locked))
  {
    var hop, id := p.hops[0], p.ids[0];
    assert HopReady(net, hop, id);
    assert (hop.sender, hop.receiver) in net.chans;
    LockThenResolve(ChannelOf(net, hop), hop, id, p.hash, (s: string) => None, "", 0);
    forall i | 0 <= i < |p.hops[1..]|
      ensures Apart(hop, p.hops[1..][i])
    {
      assert Apart(p.hops[0], p.hops[i + 1]);
    }
  }

  /** A change of one channel leaves hops elsewhere ready. */
  lemma ApartStaysReady(net: Net, hop: RouteHop, c: Chan, other: RouteHop, id: string)
    requires Apart(hop, other) && HopReady(net, other, id)
    ensures HopReady(SetChannel(net, hop.sender, hop.receiver, c), other, id)
  {
  }

  /** Locking the first hop leaves the others ready. */
  lemma LockKeepsReady(net: Net, p: Payment)
    requires Ready(net, p) && p.hops != []
    ensures LockHop(net, p.hops[0], p.ids[0], p.hash).Some?
    ensures Ready(LockHop(net, p.hops[0], p.ids[0], p.hash).value, Rest(p))
  {
    hide Add, HopReady, Apart, LockHop, SetChannel, Shared, PartiesAre;
    FirstLock(net, p);
    var hop := p.hops[0];
    var locked := Add(ChannelOf(net, hop), p.ids[0], Contract(hop, p.hash), hop.sender).1;
    SetKeepsShared(net, hop, locked);
    forall i | 0 <= i < |p.hops| - 1
      ensures HopReady(SetChannel(net, hop.sender, hop.receiver, locked), p.hops[1..][i], p.ids[1..][i])
    {
      assert Apart(hop, p.hops[1..][i]);
      assert HopReady(net, p.hops[i + 1], p.ids[i + 1]);
      ApartStaysReady(net, hop, locked, p.hops[i + 1], p.ids[i + 1]);
    }
    forall i, j | 0 <= i < j < |p.hops| - 1
      ensures Apart(p.hops[1..][i], p.hops[1..][j])
    {
      assert Apart(p.hops[i + 1], p.hops[j + 1]);
    }
  }

  // ----- what locking needs

  /** The hop's channel exists and its sender can cover the amount. */
  predicate HopFunded(net: Net, hop: RouteHop) {
    (hop.sender, hop.receiver) in net.chans && Capacity(net, hop.sender, hop.receiver) >= hop.amount
  }

  ghost predicate Funded(net: Net, hops: seq<RouteHop>) {
    && Shared(net)
    && (forall i :: 0 <= i < |hops| ==> HopFunded(net, hops[i]))
    && (forall i, j :: 0 <= i < j < |hops| ==> Apart(hops[i], hops[j]))
  }

  predicate HopOpen(net: Net, hop: RouteHop) {
    (hop.sender, hop.receiver) in net.chans && ChannelOf(net, hop).state == OPEN
  }

  predicate AllOpen(net: Net, hops: seq<RouteHop>) {
    forall i :: 0 <= i < |hops| ==> HopOpen(net, hops[i])
  }

  lemma AddOutcome(net: Net, hop: RouteHop, id: string, hash: string)
    requires Shared(net) && HopFunded(net, hop)
    ensures (hop.sender, hop.receiver) in net.chans
    ensures var (outcome, locked) := Add(ChannelOf(net, hop), id, Contract(hop, hash), hop.sender);
      && (outcome == Done <==> ChannelOf(net, hop).state == OPEN)
      && (outcome == Done ==> PartiesAre(locked, hop.sender, hop.receiver))
  {
    var e := (hop.sender, hop.receiver);
    assert PartiesAre(net.chans[e], e.0, e.1);
  }

  /** A change of one channel leaves hops elsewhere as they were. */
  lemma ApartStaysFunded(net: Net, hop: RouteHop, c: Chan, other: RouteHop)
    requires Apart(hop, other) && HopFunded(net, other)
    ensures HopFunded(SetChannel(net, hop.sender, hop.receiver, c), other)
    ensures ChannelOf(SetChannel(net, hop.sender, hop.receiver, c), other) == ChannelOf(net, other)
  {
  }

  lemma LockKeepsFunded(net: Net, hops: seq<RouteHop>, locked: Chan)
    requires hops != [] && Funded(net, hops) && PartiesAre(locked, hops[0].sender, hops[0].receiver)
    ensures var next := SetChannel(net, hops[0].sender, hops[0].receiver, locked);
      Funded(next, hops[1..]) && (AllOpen(next, hops[1..]) <==> AllOpen(net, hops[1..]))
  {
    hide SetChannel, Shared, PartiesAre, Apart, HopFunded;
    var next := SetChannel(net, hops[0].sender, hops[0].receiver, locked);
    assert HopFunded(net, hops[0]);
    FundedEdge(net, hops[0]);
    SetKeepsShared(net, hops[0], locked);
    forall i | 0 < i < |hops|
      ensures hops[1..][i - 1] == hops[i] && HopFunded(net, hops[i]) && HopFunded(next, hops[i])
      ensures (hops[i].sender, hops[i].receiver) in net.chans && (hops[i].sender, hops[i].receiver) in next.chans
      ensures ChannelOf(next, hops[i]) == ChannelOf(net, hops[i])
    {
      assert Apart(hops[0], hops[i]) && HopFunded(net, hops[i]);
      FundedEdge(net, hops[i]);
      ApartStaysFunded(net, hops[0], locked, hops[i]);
      FundedEdge(next, hops[i]);
    }
    forall i | 0 <= i < |hops[1..]|
      ensures HopFunded(next, hops[1..][i])
    {
      assert hops[1..][i] == hops[i + 1];
    }
    forall i, j | 0 <= i < j < |hops[1..]|
      ensures Apart(hops[1..][i], hops[1..][j])
    {
      assert Apart(hops[i + 1], hops[j + 1]);
    }
  }

  lemma FundedEdge(net: Net, hop: RouteHop)
    requires HopFunded(net, hop)
    ensures (hop.sender, hop.receiver) in net.chans
  {
  }

  lemma OpenSplit(net: Net, hops: seq<RouteHop>)
    requires hops != []
    ensures AllOpen(net, hops) <==> HopOpen(net, hops[0]) && AllOpen(net, hops[1..])
  {
    hide HopOpen;
    assert hops == [hops[0]] + hops[1..];
  }

  /** Over funded hops on distinct channels, locking succeeds exactly when all those channels are open. */
  lemma {:induction false} LockNeedsOpen(net: Net, p: Payment)
    requires |p.ids| == |p.hops| && Funded(net, p.hops)
    ensures LockAll(net, p).Some? <==> AllOpen(net, p.hops)
    decreases |p.hops|
  {
    hide Add, SetChannel, Shared, Apart, HopFunded, PartiesAre;
    if p.hops != [] {
      var hop := p.hops[0];
      assert HopFunded(net, hop);
      OpenSplit(net, p.hops);
      AddOutcome(net, hop, p.ids[0], p.hash);
      var (outcome, locked) := Add(ChannelOf(net, hop), p.ids[0], Contract(hop, p.hash), hop.sender);
      if outcome == Done {
        LockKeepsFunded(net, p.hops, locked);
        LockNeedsOpen(SetChannel(net, hop.sender, hop.receiver, locked), Rest(p));
      }
    }
  }

  /** Two networks that differ at most in sequence numbers. */
  ghost predicate Alike(a: Net, b: Net) {
    && a.nodes == b.nodes && a.chans.Keys == b.chans.Keys
    && forall e :: e in a.chans ==> a.chans[e].(sequence := 0) == b.chans[e].(sequence := 0)
  }

  /** The same payment as an atomic transfer along all hops. */
  function TransferAll(net: Net, hops: seq<RouteHop>): (r: Net) {
    if hops == [] then net
    else
      var rest := TransferAll(net, hops[1..]);
      if (hops[0].sender, hops[0].receiver) !in rest.chans then rest
      else SetChannel(rest, hops[0].sender, hops[0].receiver, Transfer(ChannelOf(rest, hops[0]), hops[0].sender, hops[0].amount))
  }

  /** One transfer at another hop commutes with changing a channel. */
  lemma SwapSet(net: Net, hop: RouteHop, c: Chan, other: RouteHop)
    requires Apart(hop, other) && (hop.sender, hop.receiver) in net.chans && (hop.receiver, hop.sender) in net.chans
    ensures ((other.sender, other.receiver) in net.chans <==> (other.sender, other.receiver) in SetChannel(net, hop.sender, hop.receiver, c).chans)
    ensures (other.sender, other.receiver) in net.chans ==>
      && ChannelOf(SetChannel(net, hop.sender, hop.receiver, c), other) == ChannelOf(net, other)
      && (forall d :: SetChannel(SetChannel(net, hop.sender, hop.receiver, c), other.sender, other.receiver, d) ==
                      SetChannel(SetChannel(net, other.sender, other.receiver, d), hop.sender, hop.receiver, c))
  {
    forall d
      ensures SetChannel(SetChannel(net, hop.sender, hop.receiver, c), other.sender, other.receiver, d).chans ==
        SetChannel(SetChannel(net, other.sender, other.receiver, d), hop.sender, hop.receiver, c).chans
    {
    }
  }

  /** Transfers elsewhere commute with changing a channel. */
  lemma {:induction false} TransferCommutes(net: Net, hop: RouteHop, c: Chan, hops: seq<RouteHop>)
    requires (hop.sender, hop.receiver) in net.chans && (hop.receiver, hop.sender) in net.chans && ApartFrom(hop, hops)
    ensures TransferAll(net, hops).chans.Keys == net.chans.Keys + TransferAll(net, hops).chans.Keys
    ensures ChannelOf(TransferAll(net, hops), hop) == ChannelOf(net, hop)
    ensures TransferAll(SetChannel(net, hop.sender, hop.receiver, c), hops) ==
            SetChannel(TransferAll(net, hops), hop.sender, hop.receiver, c)
  {
    if hops != [] {
      assert ApartFrom(hop, hops[1..]) by {
        assert forall i :: 0 <= i < |hops[1..]| ==> hops[1..][i] == hops[i + 1];
      }
      TransferCommutes(net, hop, c, hops[1..]);
      assert Apart(hop, hops[0]);
      SwapSet(TransferAll(net, hops[1..]), hop, c, hops[0]);
    }
  }

  /** Replacing one channel hides how it differed before. */
  lemma SetOverwrites(done: Net, base: Net, hop: RouteHop, locked: Chan, a: Chan, b: Chan)
    requires (hop.sender, hop.receiver) in base.chans && (hop.receiver, hop.sender) in base.chans
    requires Alike(done, SetChannel(base, hop.sender, hop.receiver, locked)) && a.(sequence := 0) == b.(sequence := 0)
    ensures Alike(SetChannel(done, hop.sender, hop.receiver, a), SetChannel(base, hop.sender, hop.receiver, b))
    ensures (hop.sender, hop.receiver) in done.chans && ChannelOf(done, hop).(sequence := 0) == locked.(sequence := 0)
  {
  }

  /** Lock every hop, redeem every hop: the network changes as by one atomic transfer along the route. */
  lemma {:induction false} RedeemedRefinesTransfer(net: Net, p: Payment, sha: PreimageHash, preimage: string)
    requires Ready(net, p) && sha(preimage) == Some(p.hash)
    ensures LockAll(net, p).Some?
    ensures RedeemAll(LockAll(net, p).value, p, sha, preimage).Some?
    ensures Alike(RedeemAll(LockAll(net, p).value, p, sha, preimage).value, TransferAll(net, p.hops))
    decreases |p.hops|
  {
    hide Add, Redeem, Alike, Transfer, SetChannel, LockHop;
    if p.hops == [] {
      AlikeItself(net);
    } else {
      FirstLock(net, p);
      LockKeepsReady(net, p);
      var hop, id, c := p.hops[0], p.ids[0], ChannelOf(net, p.hops[0]);
      var locked := Add(c, id, Contract(hop, p.hash), hop.sender).1;
      var next := LockHop(net, hop, id, p.hash).value;
      RedeemedRefinesTransfer(next, Rest(p), sha, preimage);
      TransferCommutes(net, hop, locked, p.hops[1..]);
      RedeemLast(net, hop, id, p.hash, sha, preimage, RedeemAll(LockAll(next, Rest(p)).value, Rest(p), sha, preimage).value, TransferAll(net, p.hops[1..]));
    }
  }

  lemma AlikeItself(net: Net)
    ensures Alike(net, net)
  {
  }

  /** The last redemption to happen, at the first hop. */
  lemma RedeemLast(net: Net, hop: RouteHop, id: string, hash: string, sha: PreimageHash, preimage: string, done: Net, base: Net)
    requires (hop.sender, hop.receiver) in net.chans && sha(preimage) == Some(hash)
    requires PartiesAre(ChannelOf(net, hop), hop.sender, hop.receiver) && id !in ChannelOf(net, hop).htlcs
    requires Add(ChannelOf(net, hop), id, Contract(hop, hash), hop.sender).0 == Done
    requires (hop.sender, hop.receiver) in base.chans && (hop.receiver, hop.sender) in base.chans
    requires ChannelOf(base, hop) == ChannelOf(net, hop)
    requires Alike(done, SetChannel(base, hop.sender, hop.receiver, Add(ChannelOf(net, hop), id, Contract(hop, hash), hop.sender).1))
    ensures RedeemHop(done, hop, id, sha, preimage).Some?
    ensures Alike(RedeemHop(done, hop, id, sha, preimage).value,
                  SetChannel(base, hop.sender, hop.receiver, Transfer(ChannelOf(base, hop), hop.sender, hop.amount)))
  {
    hide Add, Redeem, Refund, Alike, Transfer, SetChannel;
    var c := ChannelOf(net, hop);
    var locked := Add(c, id, Contract(hop, hash), hop.sender).1;
    var moved := Transfer(c, hop.sender, hop.amount);
    LockThenResolve(c, hop, id, hash, sha, preimage, 0);
    SetOverwrites(done, base, hop, locked, moved, moved);
    RedeemIgnoresSequence(ChannelOf(done, hop), locked, sha, id, preimage);
    SetOverwrites(done, base, hop, locked, Redeem(ChannelOf(done, hop), sha, id, preimage).1, moved);
  }

  lemma RedeemIgnoresSequence(a: Chan, b: Chan, sha: PreimageHash, id: string, preimage: string)
    requires a.(sequence := 0) == b.(sequence := 0)
    ensures Redeem(a, sha, id, preimage).0 == Redeem(b, sha, id, preimage).0
    ensures Redeem(a, sha, id, preimage).1.(sequence := 0) == Redeem(b, sha, id, preimage).1.(sequence := 0)
  {
  }

  lemma RefundIgnoresSequence(a: Chan, b: Chan, id: string, height: int)
    requires a.(sequence := 0) == b.(sequence := 0)
    ensures Refund(a, id, height).0 == Refund(b, id, height).0
    ensures Refund(a, id, height).1.(sequence := 0) == Refund(b, id, height).1.(sequence := 0)
  {
  }

  predicate AllExpired(hops: seq<RouteHop>, height: int) {
    forall i :: 0 <= i < |hops| ==> height >= hops[i].locktime
  }

  /** Lock every hop, refund every hop after all timelocks: nothing but sequence numbers has changed. */
  lemma {:induction false} RefundedRestores(net: Net, p: Payment, height: int)
    requires Ready(net, p) && AllExpired(p.hops, height)
    ensures LockAll(net, p).Some?
    ensures RefundAll(LockAll(net, p).value, p, height).Some?
    ensures Alike(RefundAll(LockAll(net, p).value, p, height).value, net)
    decreases |p.hops|
  {
    hide Add, Refund, Alike, SetChannel, LockHop;
    if p.hops == [] {
      AlikeItself(net);
    } else {
      FirstLock(net, p);
      LockKeepsReady(net, p);
      var next := LockHop(net, p.hops[0], p.ids[0], p.hash).value;
      RefundedRestores(next, Rest(p), height);
      RefundLast(net, p.hops[0], p.ids[0], p.hash, height, RefundAll(LockAll(next, Rest(p)).value, Rest(p), height).value);
    }
  }

  /** The last refund to happen, at the first hop. */
  lemma RefundLast(net: Net, hop: RouteHop, id: string, hash: string, height: int, done: Net)
    requires Shared(net) && (hop.sender, hop.receiver) in net.chans && height >= hop.locktime
    requires PartiesAre(ChannelOf(net, hop), hop.sender, hop.receiver) && id !in ChannelOf(net, hop).htlcs
    requires Add(ChannelOf(net, hop), id, Contract(hop, hash), hop.sender).0 == Done
    requires Alike(done, SetChannel(net, hop.sender, hop.receiver, Add(ChannelOf(net, hop), id, Contract(hop, hash), hop.sender).1))
    ensures RefundHop(done, hop, id, height).Some?
    ensures Alike(RefundHop(done, hop, id, height).value, net)
  {
    hide Add, Redeem, Refund, Alike;
    var c := ChannelOf(net, hop);
    var locked := Add(c, id, Contract(hop, hash), hop.sender).1;
    LockThenResolve(c, hop, id, hash, (s: string) => None, "", height);
    assert SetChannel(net, hop.sender, hop.receiver, c) == net;
    SetOverwrites(done, net, hop, locked, c, c);
    RefundIgnoresSequence(ChannelOf(done, hop), locked, id, height);
    SetOverwrites(done, net, hop, locked, Refund(ChannelOf(done, hop), id, height).1, c);
  }
}
