/** A node and its channels (domain/node.py). */
module Node {
  import opened Channel

  class LightningNode {
    const alias: string
    var channels: map<string, PaymentChannel>
    var revocationSecrets: map<string, map<nat, string>>

    /** Every channel has its table of revocation secrets. */
    predicate Valid()
      reads this
    {
      channels.Keys <= revocationSecrets.Keys
    }

    constructor (alias: string)
      ensures Valid() && this.alias == alias && channels == map[]
    {
      this.alias, channels, revocationSecrets := alias, map[], map[];
    }

    /** `open_channel`: both nodes hold the one new channel. */
    method OpenChannel(peer: LightningNode, capacity: int) returns (channel: PaymentChannel)
      requires Valid() && peer.Valid()
      modifies this, peer
      ensures Valid() && peer.Valid() && fresh(channel)
      ensures channel.View() == Opened(alias, peer.alias, capacity)
      ensures channels == old(channels)[peer.alias := channel]
      ensures peer.channels == old(peer.channels)[alias := channel]
      ensures revocationSecrets == old(revocationSecrets)[peer.alias := map[]]
      ensures peer.revocationSecrets == old(peer.revocationSecrets)[alias := map[]]
    {
      channel := new PaymentChannel(alias, peer.alias, capacity);
      channels := channels[peer.alias := channel];
      peer.channels := peer.channels[alias := channel];
      revocationSecrets := revocationSecrets[peer.alias := map[]];
      peer.revocationSecrets := peer.revocationSecrets[alias := map[]];
    }

    /** `route_htlc_payment`, with the fresh revocation secret as a parameter. */
    method RouteHtlcPayment(target: string, amount: int, hash: string, locktime: int, id: string, secret: string) returns (outcome: Outcome)
      requires Valid()
      modifies this, channels.Values
      ensures Valid() && channels == old(channels)
      ensures target !in channels ==> outcome == StateError
      ensures forall c :: c in channels.Values && (target !in channels || c != channels[target]) ==> c.View() == old(c.View())
      ensures target in channels ==>
        (outcome, channels[target].View()) == Add(old(channels[target].View()), id, Htlc(hash, amount, locktime, alias, false, false), alias)
      ensures revocationSecrets == if outcome == Done
        then old(revocationSecrets)[target := old(revocationSecrets)[target][channels[target].sequence := secret]]
        else old(revocationSecrets)
    {
      if target !in channels {
        return StateError;
      }
      assert channels[target] in channels.Values;
      outcome := channels[target].AddHtlc(id, Htlc(hash, amount, locktime, alias, false, false), alias);
      if outcome == Done {
        revocationSecrets := revocationSecrets[target := revocationSecrets[target][channels[target].sequence := secret]];
      }
    }

    /** `fulfill_htlc`. */
    method FulfillHtlc(peer: string, sha: PreimageHash, id: string, preimage: string) returns (outcome: Outcome)
      modifies channels.Values
      ensures peer !in channels ==> outcome == StateError
      ensures forall c :: c in channels.Values && (peer !in channels || c != channels[peer]) ==> c.View() == old(c.View())
      ensures peer in channels ==> (outcome, channels[peer].View()) == Redeem(old(channels[peer].View()), sha, id, preimage)
    {
      if peer !in channels {
        return StateError;
      }
      assert channels[peer] in channels.Values;
      outcome := channels[peer].RedeemHtlc(sha, id, preimage);
    }

    /** `refund_htlc`. */
    method RefundHtlc(peer: string, id: string, height: int) returns (outcome: Outcome)
      modifies channels.Values
      ensures peer !in channels ==> outcome == StateError
      ensures forall c :: c in channels.Values && (peer !in channels || c != channels[peer]) ==> c.View() == old(c.View())
      ensures peer in channels ==> (outcome, channels[peer].View()) == Refund(old(channels[peer].View()), id, height)
    {
      if peer !in channels {
        return StateError;
      }
      assert channels[peer] in channels.Values;
      outcome := channels[peer].RefundHtlc(id, height);
    }
  }
}
