/** What every run of channel calls keeps, successful or failing. */
module ChannelRuns {
  import opened Bytes
  import opened Channel
  import opened MapSums

  datatype Call =
    | AddCall(id: string, htlc: Htlc, offerer: string)
    | RedeemCall(id: string, preimage: string)
    | RefundCall(id: string, height: int)
    | CloseCall

  function Perform(c: Chan, sha: PreimageHash, call: Call): (r: (Outcome, Chan)) {
    match call
    case AddCall(id, h, offerer) => Add(c, id, h, offerer)
    case RedeemCall(id, preimage) => Redeem(c, sha, id, preimage)
    case RefundCall(id, height) => Refund(c, id, height)
    case CloseCall => (Done, c.(state := SETTLED))
  }

  /** The channel after a run of calls, errors caught by the caller. */
  function Run(c: Chan, sha: PreimageHash, calls: seq<Call>): (r: Chan)
    decreases |calls|
  {
    if calls == [] then c else Run(Perform(c, sha, calls[0]).1, sha, calls[1..])
  }

  /** A failed call changes nothing. */
  lemma FailureKeepsState(c: Chan, sha: PreimageHash, call: Call)
    ensures Perform(c, sha, call).0 != Done ==> Perform(c, sha, call).1 == c
  {
  }

  // ----- what each call decides and changes

  /** An offer, by the offerer it names, else the HTLC's, else the sender: done exactly when the channel is open and that
      party has the balance; then that balance alone falls by the amount and the HTLC is kept under its id. */
  lemma OfferDecides(c: Chan, id: string, h: Htlc, offerer: string)
    ensures var who := if offerer != "" then offerer else if h.offerer != "" then h.offerer else c.sender;
      var (outcome, after) := Add(c, id, h, offerer);
      var mine := if who == c.sender then c.senderBalance else c.receiverBalance;
      && (outcome == Done <==> c.state == OPEN && (who == c.sender || who == c.receiver) && mine >= h.amount)
      && (outcome == InsufficientBalance <==> c.state == OPEN && (who == c.sender || who == c.receiver) && mine < h.amount)
      && (outcome == Done || outcome == InsufficientBalance || outcome == StateError)
      && (outcome == Done ==>
        && after.senderBalance == c.senderBalance - (if who == c.sender then h.amount else 0)
        && after.receiverBalance == c.receiverBalance - (if who == c.sender then 0 else h.amount)
        && after.htlcs == c.htlcs[id := Htlc(h.paymentHash, h.amount, h.locktime, who, h.settled, h.refunded)]
        && after.sequence == c.sequence + 1 && after.state == c.state && after.capacity == c.capacity
        && after.sender == c.sender && after.receiver == c.receiver)
  {
  }

  /** A redemption and a refund: each asks for an active HTLC under the id; the one for an unresolved HTLC and the preimage of
      its hash, the other for the locktime to be reached. The amount goes to the other side, or back, and the HTLC is gone. */
  lemma ResolutionDecides(c: Chan, sha: PreimageHash, id: string, preimage: string, height: int)
    ensures id !in c.htlcs ==> Redeem(c, sha, id, preimage).0 == StateError && Refund(c, id, height).0 == StateError
    ensures id in c.htlcs ==>
      var h := c.htlcs[id];
      var own := h.offerer == "" || h.offerer == c.sender;
      var (redeemed, paid) := Redeem(c, sha, id, preimage);
      var (refunded, back) := Refund(c, id, height);
      && (redeemed == StateError <==> h.settled || h.refunded)
      && (redeemed == Done <==> !h.settled && !h.refunded && sha(preimage) == Some(h.paymentHash))
      && (redeemed == Done || redeemed == StateError || redeemed == InvalidPreimage)
      && (redeemed == Done ==> paid == Settled(c, id, if own then 0 else h.amount, if own then h.amount else 0))
      && refunded == (if height >= h.locktime then Done else NotExpired)
      && (refunded == Done ==> back == Settled(c, id, if own then h.amount else 0, if own then 0 else h.amount))
  {
  }

  /** The channel with an HTLC removed and both balances raised. */
  function Settled(c: Chan, id: string, toSender: int, toReceiver: int): (r: Chan) {
    Chan(c.sender, c.receiver, c.capacity, c.senderBalance + toSender, c.receiverBalance + toReceiver, c.state,
         map k | k in c.htlcs && k != id :: c.htlcs[k], c.sequence + 1)
  }

  // ----- conservation

  function Amount(id: string, h: Htlc): (a: int) {
    h.amount
  }

  ghost function Locked(c: Chan): (s: int) {
    Sum(c.htlcs, Amount)
  }

  /** Everything the channel accounts for: both balances and the locked amounts. */
  ghost function Total(c: Chan): (s: int) {
    c.senderBalance + c.receiverBalance + Locked(c)
  }

  /** The amount a call drops by storing an HTLC under an id already in use. */
  function Overwritten(c: Chan, sha: PreimageHash, call: Call): (a: int) {
    if call.AddCall? && call.id in c.htlcs && Perform(c, sha, call).0 == Done then c.htlcs[call.id].amount else 0
  }

  function TotalOverwritten(c: Chan, sha: PreimageHash, calls: seq<Call>): (a: int)
    decreases |calls|
  {
    if calls == [] then 0
    else Overwritten(c, sha, calls[0]) + TotalOverwritten(Perform(c, sha, calls[0]).1, sha, calls[1..])
  }

  lemma StepConserves(c: Chan, sha: PreimageHash, call: Call)
    ensures Total(Perform(c, sha, call).1) == Total(c) - Overwritten(c, sha, call)
  {
    match call
    case AddCall(id, h, offerer) =>
      var who := Or(offerer, Or(h.offerer, c.sender));
      SumUpdate(c.htlcs, Amount, id, h.(offerer := who));
    case RedeemCall(id, _) =>
      if id in c.htlcs {
        SumRemove(c.htlcs, Amount, id);
      }
    case RefundCall(id, _) =>
      if id in c.htlcs {
        SumRemove(c.htlcs, Amount, id);
      }
    case CloseCall =>
  }

  /** Over every run, balances plus locked amounts fall exactly by what reused ids overwrite. */
  lemma {:induction false} RunConserves(c: Chan, sha: PreimageHash, calls: seq<Call>)
    ensures Total(Run(c, sha, calls)) == Total(c) - TotalOverwritten(c, sha, calls)
    decreases |calls|
  {
    if calls != [] {
      StepConserves(c, sha, calls[0]);
      RunConserves(Perform(c, sha, calls[0]).1, sha, calls[1..]);
    }
  }

  /** Closing moves nothing, and from then on, whatever is called, nothing can be offered: HTLCs are only resolved, and the total
      stays. */
  lemma ClosedForGood(c: Chan, sha: PreimageHash, calls: seq<Call>)
    ensures Perform(c, sha, CloseCall) == (Done, c.(state := SETTLED))
    ensures var after := Run(c, sha, [CloseCall] + calls);
      && after.state == SETTLED && Total(after) == Total(c)
      && (forall id :: id in after.htlcs ==> id in c.htlcs && after.htlcs[id] == c.htlcs[id])
      && forall id, h, offerer :: Add(after, id, h, offerer) == (StateError, after)
  {
    var closed := Perform(c, sha, CloseCall).1;
    assert ([CloseCall] + calls)[1..] == calls;
    SettledRun(closed, sha, calls);
  }

  lemma {:induction false} SettledRun(c: Chan, sha: PreimageHash, calls: seq<Call>)
    requires c.state == SETTLED
    ensures var after := Run(c, sha, calls);
      && after.state == SETTLED && Total(after) == Total(c)
      && forall id :: id in after.htlcs ==> id in c.htlcs && after.htlcs[id] == c.htlcs[id]
    decreases |calls|
  {
    if calls != [] {
      StepConserves(c, sha, calls[0]);
      SettledRun(Perform(c, sha, calls[0]).1, sha, calls[1..]);
    }
  }

  /** A successful offer under an id whose HTLC is still active and holds an amount. */
  predicate OverwritesFunds(c: Chan, sha: PreimageHash, call: Call) {
    call.AddCall? && call.id in c.htlcs && c.htlcs[call.id].amount != 0 && Perform(c, sha, call).0 == Done
  }

  /** No call of the run is such an offer at the point where it is made. */
  predicate NeverOverwrites(c: Chan, sha: PreimageHash, calls: seq<Call>)
    decreases |calls|
  {
    calls == [] || (!OverwritesFunds(c, sha, calls[0]) && NeverOverwrites(Perform(c, sha, calls[0]).1, sha, calls[1..]))
  }

  ghost predicate ConservedThroughout(c: Chan, sha: PreimageHash, calls: seq<Call>) {
    forall k :: 0 <= k <= |calls| ==> Total(Run(c, sha, calls[..k])) == Total(c)
  }

  lemma RunPrefix(c: Chan, sha: PreimageHash, calls: seq<Call>, k: nat)
    requires 0 < k <= |calls|
    ensures Run(c, sha, calls[..k]) == Run(Perform(c, sha, calls[0]).1, sha, calls[1..][..k - 1])
  {
    assert calls[..k][1..] == calls[1..][..k - 1];
  }

  /** Throughout a run, balances plus locked amounts stay the same exactly when no offer overwrites funds. */
  lemma {:induction false} ConservesThroughout(c: Chan, sha: PreimageHash, calls: seq<Call>)
    ensures ConservedThroughout(c, sha, calls) <==> NeverOverwrites(c, sha, calls)
    decreases |calls|
  {
    hide Perform, Total, OverwritesFunds, Overwritten;
    if calls == [] {
      assert calls[..0] == [];
    } else {
      var next := Perform(c, sha, calls[0]).1;
      FirstConserves(c, sha, calls);
      ConservesThroughout(next, sha, calls[1..]);
      if NeverOverwrites(c, sha, calls) {
        forall k | 0 <= k <= |calls|
          ensures Total(Run(c, sha, calls[..k])) == Total(c)
        {
          if k > 0 {
            RunPrefix(c, sha, calls, k);
          }
        }
      }
      if ConservedThroughout(c, sha, calls) {
        assert Total(next) == Total(c);
        forall k | 0 <= k <= |calls[1..]|
          ensures Total(Run(next, sha, calls[1..][..k])) == Total(next)
        {
          RunPrefix(c, sha, calls, k + 1);
        }
      }
    }
  }

  lemma FirstConserves(c: Chan, sha: PreimageHash, calls: seq<Call>)
    requires calls != []
    ensures Run(c, sha, calls[..1]) == Perform(c, sha, calls[0]).1
    ensures Total(Perform(c, sha, calls[0]).1) == Total(c) <==> !OverwritesFunds(c, sha, calls[0])
  {
    StepConserves(c, sha, calls[0]);
    assert calls[..1] == [calls[0]];
    assert calls[..1][1..] == [];
  }

  predicate NonNegativeOffers(calls: seq<Call>) {
    forall i :: 0 <= i < |calls| && calls[i].AddCall? ==> calls[i].htlc.amount >= 0
  }

  predicate NonNegativeLocks(c: Chan) {
    forall id :: id in c.htlcs ==> c.htlcs[id].amount >= 0
  }

  /** With non-negative offers a loss is never made up for. */
  lemma {:induction false} LossIsFinal(c: Chan, sha: PreimageHash, calls: seq<Call>)
    requires NonNegativeLocks(c) && NonNegativeOffers(calls)
    ensures TotalOverwritten(c, sha, calls) >= 0
    ensures TotalOverwritten(c, sha, calls) == 0 <==> NeverOverwrites(c, sha, calls)
    decreases |calls|
  {
    if calls != [] {
      assert calls[0].AddCall? ==> calls[0].htlc.amount >= 0;
      LossIsFinal(Perform(c, sha, calls[0]).1, sha, calls[1..]);
    }
  }

  /** From opening on, a channel accounts for its capacity throughout a run exactly when no offer overwrites funds; with
      non-negative offers this can be read off the end of the run. */
  lemma OpenedConserves(sender: string, receiver: string, capacity: int, sha: PreimageHash, calls: seq<Call>)
    ensures var c := Opened(sender, receiver, capacity);
      && Total(c) == capacity == Run(c, sha, calls).capacity
      && (ConservedThroughout(c, sha, calls) <==> NeverOverwrites(c, sha, calls))
      && (NonNegativeOffers(calls) ==> (Total(Run(c, sha, calls)) == capacity <==> NeverOverwrites(c, sha, calls)))
  {
    var c := Opened(sender, receiver, capacity);
    ConservesThroughout(c, sha, calls);
    RunConserves(c, sha, calls);
    CapacityFixed(c, sha, calls);
    if NonNegativeOffers(calls) {
      LossIsFinal(c, sha, calls);
    }
  }

  lemma {:induction false} CapacityFixed(c: Chan, sha: PreimageHash, calls: seq<Call>)
    ensures var r := Run(c, sha, calls);
      r.capacity == c.capacity && r.sender == c.sender && r.receiver == c.receiver
    decreases |calls|
  {
    if calls != [] {
      CapacityFixed(Perform(c, sha, calls[0]).1, sha, calls[1..]);
    }
  }

  /** The hazard is real: offering twice under one id loses the first amount. */
  lemma ReusedIdLosesFunds(sha: PreimageHash)
    ensures var h := Htlc("h", 10, 0, "", false, false);
      var calls := [AddCall("x", h, ""), AddCall("x", h, "")];
      var c := Opened("a", "b", 100);
      Total(Run(c, sha, calls)) == 90 < Run(c, sha, calls).capacity
  {
    var h := Htlc("h", 10, 0, "", false, false);
    var calls := [AddCall("x", h, ""), AddCall("x", h, "")];
    var c := Opened("a", "b", 100);
    RunConserves(c, sha, calls);
    var c1 := Perform(c, sha, calls[0]).1;
    assert calls[1..] == [calls[1]] && calls[1..][1..] == [];
    assert TotalOverwritten(c1, sha, calls[1..]) == 10 + TotalOverwritten(Perform(c1, sha, calls[1]).1, sha, []);
    CapacityFixed(c, sha, calls);
  }

  // ----- runs with fresh ids and non-negative amounts

  /** No offer uses an id that is active at that point. */
  ghost predicate FreshIds(c: Chan, sha: PreimageHash, calls: seq<Call>)
    decreases |calls|
  {
    calls != [] ==>
      && (calls[0].AddCall? ==> calls[0].id !in c.htlcs)
      && FreshIds(Perform(c, sha, calls[0]).1, sha, calls[1..])
  }

  lemma {:induction false} FreshOverwritesNothing(c: Chan, sha: PreimageHash, calls: seq<Call>)
    requires FreshIds(c, sha, calls)
    ensures TotalOverwritten(c, sha, calls) == 0
    decreases |calls|
  {
    if calls != [] {
      FreshOverwritesNothing(Perform(c, sha, calls[0]).1, sha, calls[1..]);
    }
  }

  ghost predicate NonNegative(c: Chan) {
    c.senderBalance >= 0 && c.receiverBalance >= 0 && NonNegativeLocks(c)
  }

  /** With non-negative offers no balance ever becomes negative. */
  lemma {:induction false} RunNonNegative(c: Chan, sha: PreimageHash, calls: seq<Call>)
    requires NonNegative(c) && NonNegativeOffers(calls)
    ensures NonNegative(Run(c, sha, calls))
    decreases |calls|
  {
    if calls != [] {
      assert calls[0].AddCall? ==> calls[0].htlc.amount >= 0;
      RunNonNegative(Perform(c, sha, calls[0]).1, sha, calls[1..]);
    }
  }

  // ----- each lock resolves at most once

  predicate NeverOffered(calls: seq<Call>, id: string) {
    forall i :: 0 <= i < |calls| && calls[i].AddCall? ==> calls[i].id != id
  }

  /** Once redeemed or refunded, an HTLC can be neither redeemed nor refunded again, whatever happens in between. */
  lemma ResolvesOnce(c: Chan, sha: PreimageHash, call: Call, between: seq<Call>, again: Call)
    requires call.RedeemCall? || call.RefundCall?
    requires again.RedeemCall? || again.RefundCall?
    requires again.id == call.id && Perform(c, sha, call).0 == Done && NeverOffered(between, call.id)
    ensures Perform(Run(Perform(c, sha, call).1, sha, between), sha, again).0 == StateError
  {
    StaysAbsent(Perform(c, sha, call).1, sha, between, call.id);
  }

  lemma {:induction false} StaysAbsent(c: Chan, sha: PreimageHash, calls: seq<Call>, id: string)
    requires id !in c.htlcs && NeverOffered(calls, id)
    ensures id !in Run(c, sha, calls).htlcs
    decreases |calls|
  {
    if calls != [] {
      assert calls[0].AddCall? ==> calls[0].id != id;
      StaysAbsent(Perform(c, sha, calls[0]).1, sha, calls[1..], id);
    }
  }

  // ----- the outcome depends on what was redeemed, not on the order

  /** What a redeemed HTLC moves to the sender's side. */
  function Moved(sender: string, h: Htlc): (a: int) {
    if Or(h.offerer, sender) == sender then -h.amount else h.amount
  }

  /** The amount of an HTLC if the sender offered it. */
  function OwnOffer(sender: string): (f: (string, Htlc) -> int) {
    (id: string, h: Htlc) => if Or(h.offerer, sender) == sender then h.amount else 0
  }

  /** The HTLC a call redeems, if any. */
  function Newly(c: Chan, sha: PreimageHash, call: Call): (hs: seq<Htlc>) {
    if call.RedeemCall? && Perform(c, sha, call).0 == Done then [c.htlcs[call.id]] else []
  }

  /** The HTLCs redeemed in a run, in order. */
  function Redeemed(c: Chan, sha: PreimageHash, calls: seq<Call>): (hs: seq<Htlc>)
    decreases |calls|
  {
    if calls == [] then []
    else Newly(c, sha, calls[0]) + Redeemed(Perform(c, sha, calls[0]).1, sha, calls[1..])
  }

  function TotalMoved(sender: string, hs: seq<Htlc>): (a: int) {
    if hs == [] then 0 else Moved(sender, hs[0]) + TotalMoved(sender, hs[1..])
  }

  /** The sender's balance together with its own pending offers. */
  ghost function Claim(c: Chan): (a: int) {
    c.senderBalance + Sum(c.htlcs, OwnOffer(c.sender))
  }

  lemma StepClaim(c: Chan, sha: PreimageHash, call: Call)
    requires call.AddCall? ==> call.id !in c.htlcs
    ensures Perform(c, sha, call).1.sender == c.sender
    ensures Claim(Perform(c, sha, call).1) == Claim(c) + TotalMoved(c.sender, Newly(c, sha, call))
  {
    match call
    case AddCall(id, h, offerer) =>
      var who := Or(offerer, Or(h.offerer, c.sender));
      SumUpdate(c.htlcs, OwnOffer(c.sender), id, h.(offerer := who));
    case RedeemCall(id, _) =>
      if id in c.htlcs {
        SumRemove(c.htlcs, OwnOffer(c.sender), id);
      }
    case RefundCall(id, _) =>
      if id in c.htlcs {
        SumRemove(c.htlcs, OwnOffer(c.sender), id);
      }
    case CloseCall =>
  }

  lemma {:induction false} MovedSplit(sender: string, a: seq<Htlc>, b: seq<Htlc>)
    ensures TotalMoved(sender, a + b) == TotalMoved(sender, a) + TotalMoved(sender, b)
  {
    if a == [] {
      assert a + b == b;
    } else {
      assert (a + b)[1..] == a[1..] + b;
      MovedSplit(sender, a[1..], b);
    }
  }

  /** What the sender can claim changes exactly by what the run's redemptions move. */
  lemma {:induction false} RunClaim(c: Chan, sha: PreimageHash, calls: seq<Call>)
    requires FreshIds(c, sha, calls)
    ensures Claim(Run(c, sha, calls)) == Claim(c) + TotalMoved(c.sender, Redeemed(c, sha, calls))
    decreases |calls|
  {
    hide Perform, Moved, Claim, Newly;
    if calls != [] {
      var next := Perform(c, sha, calls[0]).1;
      StepClaim(c, sha, calls[0]);
      RunClaim(next, sha, calls[1..]);
      MovedSplit(c.sender, Newly(c, sha, calls[0]), Redeemed(next, sha, calls[1..]));
    }
  }

  lemma CancelOne<T>(a: multiset<T>, b: multiset<T>, x: T)
    requires a + multiset{x} == b + multiset{x}
    ensures a == b
  {
    assert a == (a + multiset{x}) - multiset{x};
    assert b == (b + multiset{x}) - multiset{x};
  }

  lemma MultisetWithout<T>(s: seq<T>, i: nat)
    requires i < |s|
    ensures multiset(s) == multiset(s[..i] + s[i + 1..]) + multiset{s[i]}
  {
    assert s == s[..i] + [s[i]] + s[i + 1..];
  }

  lemma SameWithout<T>(a: seq<T>, b: seq<T>, i: nat)
    requires a != [] && i < |b| && multiset(a) == multiset(b) && b[i] == a[0]
    ensures multiset(a[1..]) == multiset(b[..i] + b[i + 1..])
  {
    MultisetWithout(a, 0);
    MultisetWithout(b, i);
    assert a[..0] + a[1..] == a[1..];
    CancelOne(multiset(a[1..]), multiset(b[..i] + b[i + 1..]), a[0]);
  }

  lemma MovedWithout(sender: string, hs: seq<Htlc>, i: nat)
    requires i < |hs|
    ensures TotalMoved(sender, hs) == Moved(sender, hs[i]) + TotalMoved(sender, hs[..i] + hs[i + 1..])
  {
    hide Moved;
    MovedSplit(sender, hs[..i], hs[i + 1..]);
    MovedSplit(sender, hs[..i], hs[i..]);
    assert hs == hs[..i] + hs[i..];
    assert hs[i..][1..] == hs[i + 1..];
  }

  lemma {:induction false} MovedPermutation(sender: string, a: seq<Htlc>, b: seq<Htlc>)
    requires multiset(a) == multiset(b)
    ensures TotalMoved(sender, a) == TotalMoved(sender, b)
    decreases |a|
  {
    hide Moved;
    if a == [] {
      assert |multiset(b)| == 0;
    } else {
      assert a[0] in multiset(b);
      var i :| 0 <= i < |b| && b[i] == a[0];
      SameWithout(a, b, i);
      MovedWithout(sender, b, i);
      MovedPermutation(sender, a[1..], b[..i] + b[i + 1..]);
    }
  }

  /** Two runs from one state that end with nothing pending and redeemed the same HTLCs, in whatever order, leave the same balances. */
  lemma OrderIrrelevant(c: Chan, sha: PreimageHash, calls1: seq<Call>, calls2: seq<Call>)
    requires FreshIds(c, sha, calls1) && FreshIds(c, sha, calls2)
    requires Run(c, sha, calls1).htlcs == map[] && Run(c, sha, calls2).htlcs == map[]
    requires multiset(Redeemed(c, sha, calls1)) == multiset(Redeemed(c, sha, calls2))
    ensures Run(c, sha, calls1).senderBalance == Run(c, sha, calls2).senderBalance
    ensures Run(c, sha, calls1).receiverBalance == Run(c, sha, calls2).receiverBalance
  {
    RunClaim(c, sha, calls1);
    RunClaim(c, sha, calls2);
    MovedPermutation(c.sender, Redeemed(c, sha, calls1), Redeemed(c, sha, calls2));
    RunConserves(c, sha, calls1);
    RunConserves(c, sha, calls2);
    FreshOverwritesNothing(c, sha, calls1);
    FreshOverwritesNothing(c, sha, calls2);
  }
}
