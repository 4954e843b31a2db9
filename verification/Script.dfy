/** The witness-script stack machine (bitcoin/interpreter.py). None stands for any exception. */
module Script {
  import opened Bytes
  import opened Numbers

  type SmallInt = n: nat | n <= 16

  datatype HashKind = SHA256 | HASH160 | HASH256 | RIPEMD160

  /** Parsed script elements: pushed data, the integers that small-number opcodes parse to, and opcodes. */
  datatype Op =
    | Data(data: bytes)
    | Small(n: SmallInt)
    | NumOp(n: SmallInt)
    | If | NotIf | Else | EndIf
    | Drop | TwoDrop | Dup | IfDup
    | Equal(verify: bool)
    | Hash(kind: HashKind)
    | Cltv | Csv
    | CheckSig(verify: bool)
    | CheckMultiSig(verify: bool)

  /** What a script can see of its transaction, and the primitives it calls. `verifies` is the ECDSA check of a
      non-empty signature, hash type included, against the script's signature hash. */
  datatype Tx = Tx(sequence: nat, lockTime: nat, verifies: (bytes, bytes) -> bool, hash: (HashKind, bytes) -> bytes)

  /** The last element is the top. */
  type Stack = seq<bytes>

  const TRUE: bytes := [1]
  const FALSE: bytes := []

  function Top(s: Stack): (v: bytes)
    requires s != []
  {
    s[|s| - 1]
  }

  function Pop(s: Stack): (r: Stack)
    requires s != []
  {
    s[..|s| - 1]
  }

  function Bool(b: bool): (v: bytes) {
    if b then TRUE else FALSE
  }

  predicate AnyNonZero(v: bytes) {
    exists i :: 0 <= i < |v| && v[i] != 0
  }

  /** `cast_to_bool`: empty, zero and negative zero are false. */
  predicate CastToBool(v: bytes) {
    v != [] && (AnyNonZero(v[..|v| - 1]) || (v[|v| - 1] != 0 && v[|v| - 1] != 0x80))
  }

  /** The false values are exactly the encodings of zero and of negative zero, of any length. */
  lemma FalseIsZero(v: bytes)
    ensures !CastToBool(v) <==> v == Zeros(|v|) || (v != [] && v == Zeros(|v| - 1) + [0x80])
  {
    if v != [] {
      var front, last := v[..|v| - 1], v[|v| - 1];
      assert v == front + [last];
      assert !AnyNonZero(front) <==> front == Zeros(|v| - 1);
      assert Zeros(|v|) == Zeros(|v| - 1) + [0];
    }
  }

  lemma BoolTruth()
    ensures CastToBool(TRUE) && !CastToBool(FALSE)
  {
  }

  function FromLittleEndian(b: bytes): (v: nat) {
    if b == [] then 0 else b[0] as nat + 256 * FromLittleEndian(b[1..])
  }

  /** `int.from_bytes(b, "little", signed=True)`. */
  function SignedLittleEndian(b: bytes): (v: int) {
    if b != [] && b[|b| - 1] >= 0x80 then FromLittleEndian(b) - ByteRange(|b|) else FromLittleEndian(b)
  }

  lemma {:induction false} LittleEndianTop(b: bytes)
    requires b != []
    ensures FromLittleEndian(b) == FromLittleEndian(b[..|b| - 1]) + b[|b| - 1] as nat * ByteRange(|b| - 1)
    ensures FromLittleEndian(b[..|b| - 1]) < ByteRange(|b| - 1)
  {
    hide ByteRange;
    var n := |b|;
    RangeStep(n - 1);
    if n > 1 {
      var front, x: nat, r := b[..n - 1], b[n - 1] as nat, ByteRange(n - 2);
      LittleEndianTop(b[1..]);
      assert b[1..][..n - 2] == front[1..];
      assert FromLittleEndian(b) == b[0] as nat + 256 * (FromLittleEndian(front[1..]) + x * r);
      Scaled(x, r);
    } else {
      assert b[1..] == [];
    }
  }

  lemma RangeStep(n: nat)
    ensures ByteRange(n) == if n == 0 then 1 else 256 * ByteRange(n - 1)
  {
  }

  lemma Scaled(x: int, r: int)
    ensures 256 * (x * r) == x * (256 * r)
  {
  }

  /** Two's complement: the decoded integer differs from the little-endian value by nothing or by 256^n, and lies in the signed
      range of n bytes. */
  lemma SignedDecoding(b: bytes)
    requires b != []
    ensures var n, v := |b|, SignedLittleEndian(b);
      && (v == FromLittleEndian(b) || v == FromLittleEndian(b) - ByteRange(n))
      && 0 <= 2 * v + ByteRange(n) && 2 * v < ByteRange(n)
  {
    LittleEndianTop(b);
    TopBit(b[|b| - 1] as nat, FromLittleEndian(b[..|b| - 1]), ByteRange(|b| - 1));
  }

  lemma TopBit(top: nat, low: nat, r: nat)
    requires top < 256 && low < r
    ensures top >= 128 ==> 256 * r <= 2 * (low + top * r) < 512 * r
    ensures top < 128 ==> 2 * (low + top * r) < 256 * r
  {
    if top >= 128 {
      MulMonotone(128, top, r);
      MulMonotone(top, 255, r);
    } else {
      MulMonotone(top, 127, r);
    }
  }

  function Reversed<T>(s: seq<T>): (r: seq<T>)
    ensures |r| == |s| && forall i :: 0 <= i < |s| ==> r[i] == s[|s| - 1 - i]
  {
    seq(|s|, i requires 0 <= i < |s| => s[|s| - 1 - i])
  }

  /** Little-endian reading is big-endian reading from the other end. */
  lemma {:induction false} LittleIsReversed(b: bytes)
    ensures FromLittleEndian(b) == FromBigEndian(Reversed(b))
  {
    if b != [] {
      LittleIsReversed(b[1..]);
      var r := Reversed(b);
      assert r[..|b| - 1] == Reversed(b[1..]);
    }
  }

  function PushSmall(n: SmallInt): (v: bytes) {
    if n == 0 then [] else [n as byte, 0, 0, 0]
  }

  /** The comparisons of CHECKLOCKTIMEVERIFY. */
  predicate LockTimeMet(tx: Tx, required: int) {
    tx.sequence != 0xFFFF_FFFF && tx.lockTime >= required
  }

  /** The comparisons of CHECKSEQUENCEVERIFY: relative locks enabled, and the low 16 bits large enough. */
  predicate SequenceMet(tx: Tx, required: int) {
    tx.sequence != 0xFFFF_FFFF && (tx.sequence / 0x8000_0000) % 2 == 0 && tx.sequence % 0x1_0000 >= required
  }

  /** An empty signature is no signature. */
  predicate SignatureValid(tx: Tx, key: bytes, sig: bytes) {
    sig != [] && tx.verifies(key, sig)
  }

  // ----- CHECKMULTISIG

  datatype Popped = Popped(items: seq<bytes>, rest: Stack)

  /** Pops `n` items, the top one first; a negative count pops nothing. */
  function PopMany(s: Stack, n: int): (r: Option<Popped>)
    decreases if n > 0 then n else 0
  {
    if n <= 0 then Some(Popped([], s))
    else if s == [] then None
    else
      match PopMany(Pop(s), n - 1)
      case None => None
      case Some(p) => Some(Popped([Top(s)] + p.items, p.rest))
  }

  /** The greedy matching of signatures against keys. None: an empty signature was reached. */
  function GreedyMatch(tx: Tx, sigs: seq<bytes>, keys: seq<bytes>): (r: Option<bool>)
    decreases |keys|
  {
    if sigs == [] then Some(true)
    else if keys == [] then Some(false)
    else if sigs[0] == [] then None
    else if tx.verifies(keys[0], sigs[0]) then GreedyMatch(tx, sigs[1..], keys[1..])
    else GreedyMatch(tx, sigs, keys[1..])
  }

  /** The operands of CHECKMULTISIG, popped in order. */
  function MultiSigOperands(s: Stack): (r: Option<(seq<bytes>, seq<bytes>, Stack)>) {
    if s == [] then None
    else
      match PopMany(Pop(s), SignedLittleEndian(Top(s)))
      case None => None
      case Some(keys) =>
        if keys.rest == [] then None
        else
          match PopMany(Pop(keys.rest), SignedLittleEndian(Top(keys.rest)))
          case None => None
          case Some(sigs) => Some((keys.items, sigs.items, if sigs.rest == [] then [] else Pop(sigs.rest)))
  }

  /** Pushes a verdict, or for the VERIFY form fails unless it is true. */
  function Verdict(s: Stack, valid: bool, verify: bool): (r: Option<Stack>) {
    if verify then (if valid then Some(s) else None) else Some(s + [Bool(valid)])
  }

  function MultiSig(tx: Tx, s: Stack, verify: bool): (r: Option<Stack>) {
    match MultiSigOperands(s)
    case None => None
    case Some((keys, sigs, rest)) =>
      match GreedyMatch(tx, sigs, keys)
      case None => None
      case Some(valid) => Verdict(rest, valid, verify)
  }

  // ----- one opcode

  predicate IsControl(op: Op) {
    op.If? || op.NotIf? || op.Else? || op.EndIf?
  }

  /** `_dispatch_opcode`. */
  function Dispatch(tx: Tx, op: Op, s: Stack): (r: Option<Stack>)
    requires !IsControl(op)
  {
    match op
    case Data(data) => Some(s + [data])
    case Small(n) => Some(s + [PushSmall(n)])
    case NumOp(n) => Some(s + [if n == 0 then [] else [n as byte]])
    case Drop => if |s| < 1 then None else Some(Pop(s))
    case TwoDrop => if |s| < 2 then None else Some(Pop(Pop(s)))
    case Dup => if |s| < 1 then None else Some(s + [Top(s)])
    case IfDup => if |s| < 1 then None else Some(if CastToBool(Top(s)) then s + [Top(s)] else s)
    case Equal(verify) => if |s| < 2 then None else Verdict(Pop(Pop(s)), Top(s) == Top(Pop(s)), verify)
    case Hash(kind) => if |s| < 1 then None else Some(Pop(s) + [tx.hash(kind, Top(s))])
    case Cltv => if |s| < 1 || !LockTimeMet(tx, SignedLittleEndian(Top(s))) then None else Some(s)
    case Csv => if |s| < 1 || !SequenceMet(tx, SignedLittleEndian(Top(s))) then None else Some(s)
    case CheckSig(verify) =>
      if |s| < 2 then None else Verdict(Pop(Pop(s)), SignatureValid(tx, Top(s), Top(Pop(s))), verify)
    case CheckMultiSig(verify) => MultiSig(tx, s, verify)
  }

  /** The effect of every opcode but CHECKMULTISIG, on a stack that holds what it needs. */
  lemma OpcodeEffects(tx: Tx, s: Stack, a: bytes, b: bytes, n: SmallInt, kind: HashKind)
    ensures Dispatch(tx, Data(a), s) == Some(s + [a])
    ensures Dispatch(tx, Small(n), s) == Some(s + [if n == 0 then [] else [n as byte, 0, 0, 0]])
    ensures Dispatch(tx, NumOp(n), s) == Some(s + [if n == 0 then [] else [n as byte]])
    ensures Dispatch(tx, Drop, s + [a]) == Some(s)
    ensures Dispatch(tx, TwoDrop, s + [a, b]) == Some(s)
    ensures Dispatch(tx, Dup, s + [a]) == Some(s + [a, a])
    ensures Dispatch(tx, IfDup, s + [a]) == Some(if CastToBool(a) then s + [a, a] else s + [a])
    ensures Dispatch(tx, Equal(false), s + [a, b]) == Some(s + [if a == b then [1] else []])
    ensures Dispatch(tx, Equal(true), s + [a, b]) == if a == b then Some(s) else None
    ensures Dispatch(tx, Hash(kind), s + [a]) == Some(s + [tx.hash(kind, a)])
    ensures Dispatch(tx, CheckSig(false), s + [a, b]) == Some(s + [if a != [] && tx.verifies(b, a) then [1] else []])
    ensures Dispatch(tx, CheckSig(true), s + [a, b]) == if a != [] && tx.verifies(b, a) then Some(s) else None
  {
    hide CastToBool, SignedLittleEndian, LockTimeMet, SequenceMet, MultiSig;
    var one, two := s + [a], s + [a, b];
    assert Top(one) == a && Pop(one) == s && one + [a] == s + [a, a];
    assert Top(two) == b && Pop(two) == one && Pop(Pop(two)) == s;
  }

  /** The lock opcodes keep the stack or fail: on the transaction's locktime, and on the low 16 bits of its sequence number. */
  lemma LockEffects(tx: Tx, s: Stack, a: bytes)
    ensures Dispatch(tx, Cltv, s + [a]) ==
      if tx.sequence != 0xFFFF_FFFF && tx.lockTime >= SignedLittleEndian(a) then Some(s + [a]) else None
    ensures Dispatch(tx, Csv, s + [a]) ==
      if tx.sequence != 0xFFFF_FFFF && (tx.sequence / 0x8000_0000) % 2 == 0 && tx.sequence % 0x1_0000 >= SignedLittleEndian(a)
      then Some(s + [a]) else None
  {
    hide SignedLittleEndian, MultiSig;
    assert Top(s + [a]) == a;
  }

  /** Every opcode fails on a stack that is too short for it. */
  lemma Underflows(tx: Tx, kind: HashKind, verify: bool, s: Stack)
    ensures s == [] ==>
      && Dispatch(tx, Drop, s) == Dispatch(tx, Dup, s) == Dispatch(tx, IfDup, s) == Dispatch(tx, Hash(kind), s) == None
      && Dispatch(tx, Cltv, s) == Dispatch(tx, Csv, s) == Dispatch(tx, CheckMultiSig(verify), s) == None
    ensures |s| < 2 ==> Dispatch(tx, TwoDrop, s) == Dispatch(tx, Equal(verify), s) == Dispatch(tx, CheckSig(verify), s) == None
  {
  }

  /** The evaluation stack and the execution flags of the enclosing conditionals. */
  datatype Machine = Machine(stack: Stack, flags: seq<bool>)

  /** `is_executing`. */
  predicate Executing(flags: seq<bool>) {
    forall i :: 0 <= i < |flags| ==> flags[i]
  }

  /** `_handle_control_flow`. */
  function Control(op: Op, m: Machine): (r: Option<Machine>)
    requires IsControl(op)
  {
    var n := |m.flags|;
    match op
    case Else => if n == 0 then None else Some(m.(flags := m.flags[n - 1 := !m.flags[n - 1]]))
    case EndIf => if n == 0 then None else Some(m.(flags := m.flags[..n - 1]))
    case _ =>
      if !Executing(m.flags) then Some(m.(flags := m.flags + [false]))
      else if m.stack == [] then None
      else Some(Machine(Pop(m.stack), m.flags + [CastToBool(Top(m.stack)) != op.NotIf?]))
  }

  function Step(tx: Tx, op: Op, m: Machine): (r: Option<Machine>) {
    if IsControl(op) then Control(op, m)
    else if !Executing(m.flags) then Some(m)
    else
      match Dispatch(tx, op, m.stack)
      case None => None
      case Some(s) => Some(m.(stack := s))
  }

  function Run(tx: Tx, ops: seq<Op>, m: Machine): (r: Option<Machine>)
    decreases |ops|
  {
    if ops == [] then Some(m)
    else
      match Step(tx, ops[0], m)
      case None => None
      case Some(next) => Run(tx, ops[1..], next)
  }

  /** A stack that ends a script successfully. */
  predicate Truthy(s: Stack) {
    s != [] && CastToBool(Top(s))
  }

  /** `execute` returns True. */
  predicate Accepts(tx: Tx, ops: seq<Op>, stack: Stack) {
    var end := Run(tx, ops, Machine(stack, []));
    end.Some? && end.value.flags == [] && Truthy(end.value.stack)
  }
}
