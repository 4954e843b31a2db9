/** The payment channel state machine (domain/channel.py). */
module Channel {
  import opened Bytes

  datatype State = CLOSED | FUNDING | OPEN | DISPUTE | SETTLED

  /** An HTLC as a channel stores it; an absent offerer is the empty alias. */
  datatype Htlc = Htlc(paymentHash: string, amount: int, locktime: int, offerer: string, settled: bool, refunded: bool)

  datatype Outcome = Done | StateError | InsufficientBalance | InvalidPreimage | NotExpired

  /** A channel's observable state. */
  datatype Chan = Chan(
    sender: string, receiver: string, capacity: int, senderBalance: int, receiverBalance: int,
    state: State, htlcs: map<string, Htlc>, sequence: nat)

  /** The SHA-256 of a hex preimage, in hex; None when the preimage is not hex. */
  type PreimageHash = string -> Option<string>

  /** Python's `first or second` on aliases. */
  function Or(first: string, second: string): (r: string) {
    if first != "" then first else second
  }

  function Offerer(c: Chan, h: Htlc): (r: string) {
    Or(h.offerer, c.sender)
  }

  /** `add_htlc`. */
  function Add(c: Chan, id: string, h: Htlc, offerer: string): (r: (Outcome, Chan)) {
    var who := Or(offerer, Or(h.offerer, c.sender));
    var stored := c.htlcs[id := h.(offerer := who)];
    if c.state != OPEN then (StateError, c)
    else if who == c.sender then
      if c.senderBalance < h.amount then (InsufficientBalance, c)
      else (Done, c.(senderBalance := c.senderBalance - h.amount, htlcs := stored, sequence := c.sequence + 1))
    else if who == c.receiver then
      if c.receiverBalance < h.amount then (InsufficientBalance, c)
      else (Done, c.(receiverBalance := c.receiverBalance - h.amount, htlcs := stored, sequence := c.sequence + 1))
    else (StateError, c)
  }

  /** Credits one side and drops the HTLC. */
  function Resolve(c: Chan, id: string, toSender: bool): (r: Chan)
    requires id in c.htlcs
  {
    var amount := c.htlcs[id].amount;
    c.(senderBalance := c.senderBalance + (if toSender then amount else 0),
       receiverBalance := c.receiverBalance + (if toSender then 0 else amount),
       htlcs := c.htlcs - {id}, sequence := c.sequence + 1)
  }

  /** `redeem_htlc`. */
  function Redeem(c: Chan, sha: PreimageHash, id: string, preimage: string): (r: (Outcome, Chan)) {
    if id !in c.htlcs || c.htlcs[id].settled || c.htlcs[id].refunded then (StateError, c)
    else if sha(preimage) != Some(c.htlcs[id].paymentHash) then (InvalidPreimage, c)
    else (Done, Resolve(c, id, Offerer(c, c.htlcs[id]) != c.sender))
  }

  /** `refund_htlc`. */
  function Refund(c: Chan, id: string, height: int): (r: (Outcome, Chan)) {
    if id !in c.htlcs then (StateError, c)
    else if height < c.htlcs[id].locktime then (NotExpired, c)
    else (Done, Resolve(c, id, Offerer(c, c.htlcs[id]) == c.sender))
  }

  /** `get_balance`. */
  function Balance(c: Chan, alias: string): (b: int) {
    if alias == c.sender then c.senderBalance else if alias == c.receiver then c.receiverBalance else 0
  }

  // ----- the mutable channel

  class PaymentChannel {
    const sender: string
    const receiver: string
    const capacity: int
    var senderBalance: int
    var receiverBalance: int
    var state: State
    var htlcs: map<string, Htlc>
    var sequence: nat

    function View(): (c: Chan)
      reads this
    {
      Chan(sender, receiver, capacity, senderBalance, receiverBalance, state, htlcs, sequence)
    }

    /** The channel `open_channel` creates: everything on the opener's side. */
    constructor (sender: string, receiver: string, capacity: int)
      ensures View() == Opened(sender, receiver, capacity)
      ensures senderBalance == this.capacity == capacity && receiverBalance == 0
      ensures state == OPEN && htlcs == map[] && sequence == 0
    {
      this.sender, this.receiver, this.capacity := sender, receiver, capacity;
      senderBalance, receiverBalance := capacity, 0;
      state, htlcs, sequence := OPEN, map[], 0;
    }

    method AddHtlc(id: string, h: Htlc, offerer: string) returns (outcome: Outcome)
      modifies this
      ensures (outcome, View()) == Add(old(View()), id, h, offerer)
    {
      if state != OPEN {
        return StateError;
      }
      var who := Or(offerer, Or(h.offerer, sender));
      if who == sender {
        if senderBalance < h.amount {
          return InsufficientBalance;
        }
        senderBalance := senderBalance - h.amount;
      } else if who == receiver {
        if receiverBalance < h.amount {
          return InsufficientBalance;
        }
        receiverBalance := receiverBalance - h.amount;
      } else {
        return StateError;
      }
      htlcs := htlcs[id := h.(offerer := who)];
      sequence := sequence + 1;
      return Done;
    }

    method RedeemHtlc(sha: PreimageHash, id: string, preimage: string) returns (outcome: Outcome)
      modifies this
      ensures (outcome, View()) == Redeem(old(View()), sha, id, preimage)
    {
      if id !in htlcs || htlcs[id].settled || htlcs[id].refunded {
        return StateError;
      }
      var h := htlcs[id];
      if sha(preimage) != Some(h.paymentHash) {
        return InvalidPreimage;
      }
      if Or(h.offerer, sender) == sender {
        receiverBalance := receiverBalance + h.amount;
      } else {
        senderBalance := senderBalance + h.amount;
      }
      htlcs := htlcs - {id};
      sequence := sequence + 1;
      return Done;
    }

    method RefundHtlc(id: string, height: int) returns (outcome: Outcome)
      modifies this
      ensures (outcome, View()) == Refund(old(View()), id, height)
    {
      if id !in htlcs {
        return StateError;
      }
      var h := htlcs[id];
      if height < h.locktime {
        return NotExpired;
      }
      if Or(h.offerer, sender) == sender {
        senderBalance := senderBalance + h.amount;
      } else {
        receiverBalance := receiverBalance + h.amount;
      }
      htlcs := htlcs - {id};
      sequence := sequence + 1;
      return Done;
    }

    method CloseCooperatively() returns (balances: map<string, int>)
      modifies this
      ensures View() == old(View()).(state := SETTLED)
      ensures balances == map[sender := senderBalance][receiver := receiverBalance]
    {
      state := SETTLED;
      balances := map[sender := senderBalance][receiver := receiverBalance];
    }
  }

  function Opened(sender: string, receiver: string, capacity: int): (c: Chan) {
    Chan(sender, receiver, capacity, capacity, 0, OPEN, map[], 0)
  }
}
