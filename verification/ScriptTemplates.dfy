/** The scripts the repository builds, and exactly when they can be spent. */
module ScriptTemplates {
  import opened Bytes
  import opened Script
  import opened ScriptTrees

  // ----- integers in scripts

  function LittleEndian(n: nat): (b: bytes) {
    if n == 0 then [] else [(n % 256) as byte] + LittleEndian(n / 256)
  }

  /** A non-negative integer as script data: minimal little-endian, with a zero byte in front of a set sign bit. */
  function ScriptNumber(n: nat): (b: bytes) {
    var b := LittleEndian(n);
    if b != [] && b[|b| - 1] >= 0x80 then b + [0] else b
  }

  /** An integer as a script element: small values have opcodes of their own. */
  function IntOp(n: nat): (op: Op) {
    if n <= 16 then Small(n) else Data(ScriptNumber(n))
  }

  /** The bytes an integer element pushes. */
  function IntBytes(n: nat): (b: bytes) {
    if n <= 16 then PushSmall(n) else ScriptNumber(n)
  }

  lemma {:induction false} LittleEndianRoundTrip(n: nat)
    ensures FromLittleEndian(LittleEndian(n)) == n
  {
    if n > 0 {
      LittleEndianRoundTrip(n / 256);
      assert LittleEndian(n)[1..] == LittleEndian(n / 256);
    }
  }

  lemma {:induction false} TrailingZeroValue(b: bytes)
    ensures FromLittleEndian(b + [0]) == FromLittleEndian(b)
  {
    if b != [] {
      TrailingZeroValue(b[1..]);
      assert (b + [0])[1..] == b[1..] + [0];
    } else {
      assert (b + [0])[1..] == [];
    }
  }

  lemma PushSmallValue(n: SmallInt)
    ensures SignedLittleEndian(PushSmall(n)) == n
  {
    if n > 0 {
      var b := PushSmall(n);
      assert b[1..] == [] + [0] + [0] + [0];
      TrailingZeroValue([]);
      TrailingZeroValue([] + [0]);
      TrailingZeroValue([] + [0] + [0]);
    }
  }

  /** The interpreter's signed decoding reads back every non-negative integer a script was built with. */
  lemma IntRoundTrip(n: nat)
    ensures SignedLittleEndian(IntBytes(n)) == n
  {
    if n <= 16 {
      PushSmallValue(n);
    } else {
      LittleEndianRoundTrip(n);
      TrailingZeroValue(LittleEndian(n));
    }
  }

  /** Integers above 16 are written as short as their value and a clear sign bit allow. */
  lemma {:induction false} LastByteSet(n: nat)
    requires n > 0
    ensures LittleEndian(n) != [] && LittleEndian(n)[|LittleEndian(n)| - 1] != 0
  {
    if n >= 256 {
      LastByteSet(n / 256);
    }
  }

  lemma ShortestNumber(n: nat)
    requires n > 16
    ensures var b := IntBytes(n);
      && b != [] && b[|b| - 1] < 0x80
      && (b[|b| - 1] == 0 ==> |b| >= 2 && b[|b| - 2] >= 0x80)
  {
    LastByteSet(n);
  }

  /** An integer element pushes its bytes. */
  lemma IntOpPushes(tx: Tx, n: nat, s: Stack)
    ensures !IsControl(IntOp(n)) && Dispatch(tx, IntOp(n), s) == Some(s + [IntBytes(n)])
  {
  }

  // ----- the scripts

  /** `create_htlc`. */
  function HtlcScript(sender: bytes, receiver: bytes, paymentHash: bytes, locktime: nat): (ops: seq<Op>) {
    [If, Hash(SHA256), Data(paymentHash), Equal(true), Data(receiver), CheckSig(false),
     Else, IntOp(locktime), Cltv, Drop, Data(sender), CheckSig(false), EndIf]
  }

  /** `create_revocable_output_script` and `create_second_stage_htlc_script`. */
  function RevocableScript(revocation: bytes, local: bytes, delay: nat): (ops: seq<Op>) {
    [If, Data(revocation), CheckSig(false), Else, IntOp(delay), Csv, Drop, Data(local), CheckSig(false), EndIf]
  }

  /** `create_ptlc_script`. */
  function PtlcScript(sender: bytes, receiver: bytes, locktime: nat): (ops: seq<Op>) {
    [If, Data(receiver), CheckSig(false), Else, IntOp(locktime), Cltv, Drop, Data(sender), CheckSig(false), EndIf]
  }

  /** `create_anchor_script`. */
  function AnchorScript(pubkey: bytes): (ops: seq<Op>) {
    [Data(pubkey), CheckSig(false), IfDup, NotIf, Small(16), Csv, EndIf]
  }

  // ----- the two kinds of arm

  /** `<key> CHECKSIG` at the end of an arm. */
  function KeyArm(key: bytes): (b: Block) {
    Plain(Data(key), Plain(CheckSig(false), Nil))
  }

  /** Pushing an element and looking at what lies below it. */
  lemma PushedTop(s: Stack, v: bytes)
    ensures s + [v] != [] && Top(s + [v]) == v && Pop(s + [v]) == s
  {
  }

  lemma CheckSigStep(tx: Tx, key: bytes, s: Stack)
    ensures Dispatch(tx, CheckSig(false), s + [key]) ==
      if s == [] then None else Some(Pop(s) + [Bool(SignatureValid(tx, key, Top(s)))])
  {
    PushedTop(s, key);
  }

  /** A key arm runs on any stack that has a signature on top, and its verdict is the signature check. */
  lemma KeyArmVerdict(tx: Tx, key: bytes, s: Stack)
    ensures WellFormed(KeyArm(key)) && Flatten(KeyArm(key)) == [Data(key), CheckSig(false)]
    ensures Eval(tx, KeyArm(key), s) == if s == [] then None else Some(Pop(s) + [Bool(SignatureValid(tx, key, Top(s)))])
    ensures var r := Eval(tx, KeyArm(key), s);
      r.Some? && Truthy(r.value) <==> s != [] && SignatureValid(tx, key, Top(s))
  {
    hide CastToBool, Eval, Flatten, WellFormed, SignatureValid;
    var check := Plain(CheckSig(false), Nil);
    NilStep(tx, s);
    PlainStep(tx, CheckSig(false), Nil, s + [key]);
    PlainStep(tx, Data(key), check, s);
    CheckSigStep(tx, key, s);
    BoolTruth();
    if s != [] {
      var judged := Pop(s) + [Bool(SignatureValid(tx, key, Top(s)))];
      NilStep(tx, judged);
      PushedTop(Pop(s), Bool(SignatureValid(tx, key, Top(s))));
    }
  }

  /** `<n> <lock> DROP <key> CHECKSIG`. */
  function LockedArm(n: nat, lock: Op, key: bytes): (b: Block) {
    Plain(IntOp(n), Plain(lock, Plain(Drop, KeyArm(key))))
  }

  predicate LockMet(tx: Tx, lock: Op, n: nat) {
    if lock.Cltv? then LockTimeMet(tx, n) else SequenceMet(tx, n)
  }

  lemma LockStep(tx: Tx, n: nat, lock: Op, s: Stack)
    requires lock.Cltv? || lock.Csv?
    ensures Dispatch(tx, lock, s + [IntBytes(n)]) == if LockMet(tx, lock, n) then Some(s + [IntBytes(n)]) else None
    ensures Dispatch(tx, Drop, s + [IntBytes(n)]) == Some(s)
  {
    hide LockTimeMet, SequenceMet, IntBytes, SignedLittleEndian;
    IntRoundTrip(n);
    PushedTop(s, IntBytes(n));
  }

  lemma LockedArmVerdict(tx: Tx, n: nat, lock: Op, key: bytes, s: Stack)
    requires lock.Cltv? || lock.Csv?
    ensures WellFormed(LockedArm(n, lock, key))
    ensures Flatten(LockedArm(n, lock, key)) == [IntOp(n), lock, Drop, Data(key), CheckSig(false)]
    ensures Eval(tx, LockedArm(n, lock, key), s) == if LockMet(tx, lock, n) then Eval(tx, KeyArm(key), s) else None
  {
    hide KeyArm, LockMet, IntBytes, IntOp, Dispatch, Eval, Flatten, WellFormed;
    var pushed := s + [IntBytes(n)];
    KeyArmVerdict(tx, key, s);
    IntOpPushes(tx, n, s);
    LockStep(tx, n, lock, s);
    PlainStep(tx, Drop, KeyArm(key), pushed);
    PlainStep(tx, lock, Plain(Drop, KeyArm(key)), pushed);
    PlainStep(tx, IntOp(n), Plain(lock, Plain(Drop, KeyArm(key))), s);
  }

  /** A two-armed conditional on the selector at the top of the stack. */
  lemma TwoArms(tx: Tx, first: Block, second: Block, ops: seq<Op>, s: Stack)
    requires WellFormed(first) && WellFormed(second)
    requires ops == [If] + Flatten(first) + [Else] + Flatten(second) + [EndIf]
    ensures Accepts(tx, ops, s) <==>
      s != [] && var r := Eval(tx, if CastToBool(Top(s)) then first else second, Pop(s)); r.Some? && Truthy(r.value)
  {
    hide CastToBool, Accepts, Truthy;
    var arms := More(first, Last(second));
    BranchShape(tx, first, second, s);
    StructuredAccepts(tx, Branch(false, arms, Nil), s);
  }

  lemma BranchShape(tx: Tx, first: Block, second: Block, s: Stack)
    requires WellFormed(first) && WellFormed(second)
    ensures var b := Branch(false, More(first, Last(second)), Nil);
      && WellFormed(b)
      && Flatten(b) == [If] + Flatten(first) + [Else] + Flatten(second) + [EndIf]
      && Eval(tx, b, s) == if s == [] then None else Eval(tx, if CastToBool(Top(s)) then first else second, Pop(s))
  {
    hide CastToBool;
    var last := Last(second);
    var arms := More(first, last);
    assert FlattenArms(last) == Flatten(second) + [EndIf];
    assert FlattenArms(arms) == Flatten(first) + [Else] + FlattenArms(last);
    assert ArmsWellFormed(last) && ArmsWellFormed(arms);
    if s != [] {
      var active := CastToBool(Top(s));
      ArmsChoose(tx, first, second, active, Pop(s));
      var r := EvalArms(tx, arms, active, Pop(s));
      if r.Some? {
        NilStep(tx, r.value);
      }
    }
  }

  lemma ArmsChoose(tx: Tx, first: Block, second: Block, active: bool, s: Stack)
    requires WellFormed(first) && WellFormed(second)
    ensures ArmsWellFormed(Last(second)) && ArmsWellFormed(More(first, Last(second)))
    ensures EvalArms(tx, More(first, Last(second)), active, s) == Eval(tx, if active then first else second, s)
  {
    var last := Last(second);
    assert forall t :: EvalArms(tx, last, !active, t) == if active then Some(t) else Eval(tx, second, t);
  }

  /** `SHA256 <hash> EQUALVERIFY <key> CHECKSIG`. */
  function ClaimArm(paymentHash: bytes, key: bytes): (b: Block) {
    Plain(Hash(SHA256), Plain(Data(paymentHash), Plain(Equal(true), KeyArm(key))))
  }

  lemma ClaimSteps(tx: Tx, paymentHash: bytes, s: Stack)
    requires s != []
    ensures var hashed := Pop(s) + [tx.hash(SHA256, Top(s))];
      && Dispatch(tx, Hash(SHA256), s) == Some(hashed)
      && Dispatch(tx, Data(paymentHash), hashed) == Some(hashed + [paymentHash])
      && Dispatch(tx, Equal(true), hashed + [paymentHash]) == if paymentHash == tx.hash(SHA256, Top(s)) then Some(Pop(s)) else None
  {
    var hashed := Pop(s) + [tx.hash(SHA256, Top(s))];
    PushedTop(Pop(s), tx.hash(SHA256, Top(s)));
    PushedTop(hashed, paymentHash);
  }

  lemma ClaimArmVerdict(tx: Tx, paymentHash: bytes, key: bytes, s: Stack)
    ensures WellFormed(ClaimArm(paymentHash, key))
    ensures Flatten(ClaimArm(paymentHash, key)) == [Hash(SHA256), Data(paymentHash), Equal(true), Data(key), CheckSig(false)]
    ensures Eval(tx, ClaimArm(paymentHash, key), s) ==
      if s == [] || tx.hash(SHA256, Top(s)) != paymentHash then None else Eval(tx, KeyArm(key), Pop(s))
  {
    hide KeyArm, Eval, Flatten, WellFormed;
    KeyArmVerdict(tx, key, s);
    var verify := Plain(Equal(true), KeyArm(key));
    var push := Plain(Data(paymentHash), verify);
    if s == [] {
      PlainStep(tx, Equal(true), KeyArm(key), s);
      PlainStep(tx, Data(paymentHash), verify, s);
    } else {
      var hashed := Pop(s) + [tx.hash(SHA256, Top(s))];
      ClaimSteps(tx, paymentHash, s);
      PlainStep(tx, Equal(true), KeyArm(key), hashed + [paymentHash]);
      PlainStep(tx, Data(paymentHash), verify, hashed);
    }
    PlainStep(tx, Hash(SHA256), push, s);
  }

  /** Spending an HTLC: with a truthy selector the preimage and the receiver's signature, otherwise the expired locktime
      and the sender's signature. Nothing else, whatever lies below on the stack. */
  lemma HtlcUnlocks(tx: Tx, sender: bytes, receiver: bytes, paymentHash: bytes, locktime: nat, s: Stack)
    ensures Accepts(tx, HtlcScript(sender, receiver, paymentHash, locktime), s) <==>
      && |s| >= 2
      && if CastToBool(Top(s))
         then |s| >= 3 && tx.hash(SHA256, s[|s| - 2]) == paymentHash && SignatureValid(tx, receiver, s[|s| - 3])
         else tx.sequence != 0xFFFF_FFFF && tx.lockTime >= locktime && SignatureValid(tx, sender, s[|s| - 2])
  {
    hide CastToBool, KeyArm, ClaimArm, LockedArm, SignatureValid, IntOp, Eval, Flatten, WellFormed, Accepts, Truthy;
    var below := if s == [] then s else Pop(s);
    LockedArmVerdict(tx, locktime, Cltv, sender, below);
    ClaimArmVerdict(tx, paymentHash, receiver, below);
    TwoArms(tx, ClaimArm(paymentHash, receiver), LockedArm(locktime, Cltv, sender), HtlcScript(sender, receiver, paymentHash, locktime), s);
    KeyArmVerdict(tx, sender, below);
    if below != [] {
      KeyArmVerdict(tx, receiver, Pop(below));
    }
  }

  /** Spending a revocable or second-stage output: the revocation key at once, or the local key after the delay. */
  lemma RevocableUnlocks(tx: Tx, revocation: bytes, local: bytes, delay: nat, s: Stack)
    ensures Accepts(tx, RevocableScript(revocation, local, delay), s) <==>
      && |s| >= 2
      && if CastToBool(Top(s)) then SignatureValid(tx, revocation, s[|s| - 2])
         else
           && tx.sequence != 0xFFFF_FFFF && (tx.sequence / 0x8000_0000) % 2 == 0 && tx.sequence % 0x1_0000 >= delay
           && SignatureValid(tx, local, s[|s| - 2])
  {
    KeyOrLockedKey(tx, revocation, delay, Csv, local, RevocableScript(revocation, local, delay), s);
  }

  /** Spending a PTLC: the receiver's key at once, or the sender's key after the locktime. */
  lemma PtlcUnlocks(tx: Tx, sender: bytes, receiver: bytes, locktime: nat, s: Stack)
    ensures Accepts(tx, PtlcScript(sender, receiver, locktime), s) <==>
      && |s| >= 2
      && if CastToBool(Top(s)) then SignatureValid(tx, receiver, s[|s| - 2])
         else tx.sequence != 0xFFFF_FFFF && tx.lockTime >= locktime && SignatureValid(tx, sender, s[|s| - 2])
  {
    KeyOrLockedKey(tx, receiver, locktime, Cltv, sender, PtlcScript(sender, receiver, locktime), s);
  }

  lemma KeyOrLockedKey(tx: Tx, key: bytes, n: nat, lock: Op, late: bytes, ops: seq<Op>, s: Stack)
    requires lock.Cltv? || lock.Csv?
    requires ops == [If, Data(key), CheckSig(false), Else, IntOp(n), lock, Drop, Data(late), CheckSig(false), EndIf]
    ensures Accepts(tx, ops, s) <==>
      && |s| >= 2
      && if CastToBool(Top(s)) then SignatureValid(tx, key, s[|s| - 2])
         else LockMet(tx, lock, n) && SignatureValid(tx, late, s[|s| - 2])
  {
    hide CastToBool, KeyArm, LockedArm, LockMet, SignatureValid, IntOp, Eval, Flatten, WellFormed, Accepts, Truthy;
    var below := if s == [] then s else Pop(s);
    LockedArmVerdict(tx, n, lock, late, below);
    KeyArmVerdict(tx, key, below);
    KeyArmVerdict(tx, late, below);
    TwoArms(tx, KeyArm(key), LockedArm(n, lock, late), ops, s);
  }

  /** `16 CSV`. */
  function DelayArm(): (b: Block) {
    Plain(Small(16), Plain(Csv, Nil))
  }

  lemma DelayArmVerdict(tx: Tx, s: Stack)
    ensures WellFormed(DelayArm()) && Flatten(DelayArm()) == [Small(16), Csv]
    ensures Eval(tx, DelayArm(), s) == if SequenceMet(tx, 16) then Some(s + [PushSmall(16)]) else None
    ensures Truthy(s + [PushSmall(16)])
  {
    hide SequenceMet, CastToBool, PushSmall, SignedLittleEndian, Eval, Flatten, WellFormed;
    var late := s + [PushSmall(16)];
    PushSmallValue(16);
    SixteenTruthy();
    PushedTop(s, PushSmall(16));
    NilStep(tx, late);
    PlainStep(tx, Csv, Nil, late);
    PlainStep(tx, Small(16), Plain(Csv, Nil), s);
  }

  /** `IFDUP NOTIF 16 CSV ENDIF` after a verdict: a true one stays, a false one is replaced by the delay. */
  lemma AnchorTail(tx: Tx, s: Stack, valid: bool)
    ensures var tail := Plain(IfDup, Branch(true, Last(DelayArm()), Nil));
      && WellFormed(tail)
      && Flatten(tail) == [IfDup, NotIf, Small(16), Csv, EndIf]
      && Eval(tx, tail, s + [Bool(valid)]) == if valid then Some(s + [TRUE]) else Eval(tx, DelayArm(), s)
  {
    hide CastToBool, DelayArm;
    var arms := Last(DelayArm());
    var branch := Branch(true, arms, Nil);
    DelayArmVerdict(tx, s);
    assert FlattenArms(arms) == [Small(16), Csv] + [EndIf];
    assert ArmsWellFormed(arms) && WellFormed(branch);
    assert Flatten(branch) == [NotIf] + FlattenArms(arms) + [];
    BoolTruth();
    PushedTop(s, Bool(valid));
    var judged := s + [Bool(valid)];
    PlainStep(tx, IfDup, branch, judged);
    if valid {
      PushedTop(judged, TRUE);
      assert EvalArms(tx, arms, false, judged) == Some(judged);
      NilStep(tx, judged);
      assert Eval(tx, branch, judged + [TRUE]) == Some(judged);
    } else {
      assert EvalArms(tx, arms, true, s) == Eval(tx, DelayArm(), s);
      var r := Eval(tx, DelayArm(), s);
      if r.Some? {
        NilStep(tx, r.value);
      }
      assert Eval(tx, branch, judged) == r;
    }
  }

  /** Spending an anchor: the channel key's signature, or after 16 blocks anything at all in its place. */
  lemma AnchorUnlocks(tx: Tx, pubkey: bytes, s: Stack)
    ensures Accepts(tx, AnchorScript(pubkey), s) <==>
      && s != []
      && (SignatureValid(tx, pubkey, Top(s)) ||
          (tx.sequence != 0xFFFF_FFFF && (tx.sequence / 0x8000_0000) % 2 == 0 && tx.sequence % 0x1_0000 >= 16))
  {
    hide CastToBool, SignatureValid, DelayArm, Eval, Flatten, WellFormed, Accepts;
    var tail := Plain(IfDup, Branch(true, Last(DelayArm()), Nil));
    var check := Plain(CheckSig(false), tail);
    var b := Plain(Data(pubkey), check);
    var below := if s == [] then s else Pop(s);
    var valid := s != [] && SignatureValid(tx, pubkey, Top(s));
    AnchorTail(tx, below, valid);
    CheckSigStep(tx, pubkey, s);
    PlainStep(tx, CheckSig(false), tail, s + [pubkey]);
    PlainStep(tx, Data(pubkey), check, s);
    StructuredAccepts(tx, b, s);
    assert Flatten(b) == AnchorScript(pubkey);
    BoolTruth();
    PushedTop(below, TRUE);
    DelayArmVerdict(tx, below);
    assert Eval(tx, b, s) ==
      if s == [] then None else if valid then Some(below + [TRUE]) else Eval(tx, DelayArm(), below);
  }

  lemma SixteenTruthy()
    ensures CastToBool(PushSmall(16))
  {
    var v := PushSmall(16);
    assert v[..|v| - 1][0] == 16;
  }

  // ----- the witness builders

  /** `witness_htlc_fulfill` unlocks exactly with the preimage and the receiver's signature. */
  lemma FulfillWitness(tx: Tx, sender: bytes, receiver: bytes, paymentHash: bytes, locktime: nat, sig: bytes, preimage: bytes)
    ensures Accepts(tx, HtlcScript(sender, receiver, paymentHash, locktime), [sig, preimage, [1]]) <==>
      tx.hash(SHA256, preimage) == paymentHash && SignatureValid(tx, receiver, sig)
  {
    hide Accepts;
    HtlcUnlocks(tx, sender, receiver, paymentHash, locktime, [sig, preimage, [1]]);
    BoolTruth();
  }

  /** `witness_htlc_refund` unlocks exactly after the locktime with the sender's signature. */
  lemma RefundWitness(tx: Tx, sender: bytes, receiver: bytes, paymentHash: bytes, locktime: nat, sig: bytes)
    ensures Accepts(tx, HtlcScript(sender, receiver, paymentHash, locktime), [sig, []]) <==>
      tx.sequence != 0xFFFF_FFFF && tx.lockTime >= locktime && SignatureValid(tx, sender, sig)
  {
    hide Accepts;
    HtlcUnlocks(tx, sender, receiver, paymentHash, locktime, [sig, []]);
    BoolTruth();
  }
}
