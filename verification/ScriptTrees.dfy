/** Nested conditionals as trees, and their meaning without execution flags. */
module ScriptTrees {
  import opened Bytes
  import opened Script

  /** A block is a list of opcodes and conditionals; a conditional has one arm more than it has ELSEs. */
  datatype Block = Nil | Plain(op: Op, rest: Block) | Branch(negated: bool, arms: Arms, rest: Block)

  datatype Arms = Last(body: Block) | More(body: Block, others: Arms)

  predicate WellFormed(b: Block) {
    match b
    case Nil => true
    case Plain(op, rest) => !IsControl(op) && WellFormed(rest)
    case Branch(_, arms, rest) => ArmsWellFormed(arms) && WellFormed(rest)
  }

  predicate ArmsWellFormed(a: Arms) {
    match a
    case Last(body) => WellFormed(body)
    case More(body, others) => WellFormed(body) && ArmsWellFormed(others)
  }

  function Flatten(b: Block): (ops: seq<Op>) {
    match b
    case Nil => []
    case Plain(op, rest) => [op] + Flatten(rest)
    case Branch(negated, arms, rest) => [if negated then NotIf else If] + FlattenArms(arms) + Flatten(rest)
  }

  function FlattenArms(a: Arms): (ops: seq<Op>) {
    match a
    case Last(body) => Flatten(body) + [EndIf]
    case More(body, others) => Flatten(body) + [Else] + FlattenArms(others)
  }

  /** The structured meaning: a conditional pops its condition and runs every other arm, starting with the first iff the condition holds. */
  function Eval(tx: Tx, b: Block, s: Stack): (r: Option<Stack>)
    requires WellFormed(b)
  {
    match b
    case Nil => Some(s)
    case Plain(op, rest) =>
      (match Dispatch(tx, op, s)
       case None => None
       case Some(next) => Eval(tx, rest, next))
    case Branch(negated, arms, rest) =>
      if s == [] then None
      else
        match EvalArms(tx, arms, CastToBool(Top(s)) != negated, Pop(s))
        case None => None
        case Some(next) => Eval(tx, rest, next)
  }

  function EvalArms(tx: Tx, a: Arms, active: bool, s: Stack): (r: Option<Stack>)
    requires ArmsWellFormed(a)
  {
    match a
    case Last(body) => if active then Eval(tx, body, s) else Some(s)
    case More(body, others) =>
      match (if active then Eval(tx, body, s) else Some(s))
      case None => None
      case Some(next) => EvalArms(tx, others, !active, next)
  }

  /** One opcode in front of a block. */
  lemma PlainStep(tx: Tx, op: Op, rest: Block, s: Stack)
    requires !IsControl(op) && WellFormed(rest)
    ensures WellFormed(Plain(op, rest))
    ensures Flatten(Plain(op, rest)) == [op] + Flatten(rest)
    ensures Eval(tx, Plain(op, rest), s) ==
      match Dispatch(tx, op, s) case None => None case Some(next) => Eval(tx, rest, next)
  {
  }

  lemma NilStep(tx: Tx, s: Stack)
    ensures WellFormed(Nil) && Flatten(Nil) == [] && Eval(tx, Nil, s) == Some(s)
  {
  }

  // ----- the flat machine agrees

  function Then(tx: Tx, r: Option<Stack>, ops: seq<Op>, flags: seq<bool>): (m: Option<Machine>) {
    match r
    case None => None
    case Some(s) => Run(tx, ops, Machine(s, flags))
  }

  lemma RunFirst(tx: Tx, op: Op, rest: seq<Op>, m: Machine)
    ensures Run(tx, [op] + rest, m) ==
      match Step(tx, op, m) case None => None case Some(next) => Run(tx, rest, next)
  {
    hide Step;
    assert ([op] + rest)[1..] == rest;
  }

  /** A balanced block in an inactive branch changes neither stack. */
  lemma {:induction false} InactiveBlock(tx: Tx, b: Block, tail: seq<Op>, s: Stack, flags: seq<bool>)
    requires WellFormed(b) && !Executing(flags)
    ensures Run(tx, Flatten(b) + tail, Machine(s, flags)) == Run(tx, tail, Machine(s, flags))
    decreases b, 1
  {
    match b
    case Nil =>
      assert Flatten(b) + tail == tail;
    case Plain(op, rest) =>
      assert Flatten(b) + tail == [op] + (Flatten(rest) + tail);
      RunFirst(tx, op, Flatten(rest) + tail, Machine(s, flags));
      InactiveBlock(tx, rest, tail, s, flags);
    case Branch(negated, arms, rest) =>
      var head := if negated then NotIf else If;
      assert Flatten(b) + tail == [head] + (FlattenArms(arms) + (Flatten(rest) + tail));
      RunFirst(tx, head, FlattenArms(arms) + (Flatten(rest) + tail), Machine(s, flags));
      InactiveArms(tx, arms, Flatten(rest) + tail, s, flags, false);
      InactiveBlock(tx, rest, tail, s, flags);
  }

  /** Inside an inactive branch the arms of a conditional are skipped, whatever their own flag. */
  lemma {:induction false} InactiveArms(tx: Tx, a: Arms, tail: seq<Op>, s: Stack, flags: seq<bool>, flag: bool)
    requires ArmsWellFormed(a) && !Executing(flags)
    ensures Run(tx, FlattenArms(a) + tail, Machine(s, flags + [flag])) == Run(tx, tail, Machine(s, flags))
    decreases a, 1
  {
    StillInactive(flags, flag);
    match a
    case Last(body) =>
      assert FlattenArms(a) + tail == Flatten(body) + ([EndIf] + tail);
      InactiveBlock(tx, body, [EndIf] + tail, s, flags + [flag]);
      EndsBranch(tx, tail, s, flags, flag);
    case More(body, others) =>
      assert FlattenArms(a) + tail == Flatten(body) + ([Else] + (FlattenArms(others) + tail));
      InactiveBlock(tx, body, [Else] + (FlattenArms(others) + tail), s, flags + [flag]);
      TogglesBranch(tx, FlattenArms(others) + tail, s, flags, flag);
      InactiveArms(tx, others, tail, s, flags, !flag);
  }

  lemma StillInactive(flags: seq<bool>, flag: bool)
    requires !Executing(flags)
    ensures !Executing(flags + [flag])
  {
    var i :| 0 <= i < |flags| && !flags[i];
    assert !(flags + [flag])[i];
  }

  lemma EndsBranch(tx: Tx, tail: seq<Op>, s: Stack, flags: seq<bool>, flag: bool)
    ensures Run(tx, [EndIf] + tail, Machine(s, flags + [flag])) == Run(tx, tail, Machine(s, flags))
  {
    RunFirst(tx, EndIf, tail, Machine(s, flags + [flag]));
    assert (flags + [flag])[..|flags|] == flags;
  }

  lemma TogglesBranch(tx: Tx, tail: seq<Op>, s: Stack, flags: seq<bool>, flag: bool)
    ensures Run(tx, [Else] + tail, Machine(s, flags + [flag])) == Run(tx, tail, Machine(s, flags + [!flag]))
  {
    RunFirst(tx, Else, tail, Machine(s, flags + [flag]));
    assert (flags + [flag])[|flags| := !flag] == flags + [!flag];
  }

  lemma FlagDecides(flags: seq<bool>, flag: bool)
    requires Executing(flags)
    ensures Executing(flags + [flag]) <==> flag
  {
    assert (flags + [flag])[|flags|] == flag;
  }

  /** Where every enclosing flag is true, running the flattened block is evaluating it. */
  lemma {:induction false} ActiveBlock(tx: Tx, b: Block, tail: seq<Op>, s: Stack, flags: seq<bool>)
    requires WellFormed(b) && Executing(flags)
    ensures Run(tx, Flatten(b) + tail, Machine(s, flags)) == Then(tx, Eval(tx, b, s), tail, flags)
    decreases b, 1
  {
    hide Dispatch, CastToBool;
    match b
    case Nil =>
      assert Flatten(b) + tail == tail;
    case Plain(op, rest) =>
      assert Flatten(b) + tail == [op] + (Flatten(rest) + tail);
      RunFirst(tx, op, Flatten(rest) + tail, Machine(s, flags));
      var next := Dispatch(tx, op, s);
      if next.Some? {
        ActiveBlock(tx, rest, tail, next.value, flags);
      }
    case Branch(negated, arms, rest) =>
      var head := if negated then NotIf else If;
      assert Flatten(b) + tail == [head] + (FlattenArms(arms) + (Flatten(rest) + tail));
      RunFirst(tx, head, FlattenArms(arms) + (Flatten(rest) + tail), Machine(s, flags));
      if s != [] {
        var active := CastToBool(Top(s)) != negated;
        ActiveArms(tx, arms, Flatten(rest) + tail, Pop(s), flags, active);
        var next := EvalArms(tx, arms, active, Pop(s));
        if next.Some? {
          ActiveBlock(tx, rest, tail, next.value, flags);
        }
      }
  }

  lemma {:induction false} ActiveArms(tx: Tx, a: Arms, tail: seq<Op>, s: Stack, flags: seq<bool>, active: bool)
    requires ArmsWellFormed(a) && Executing(flags)
    ensures Run(tx, FlattenArms(a) + tail, Machine(s, flags + [active])) == Then(tx, EvalArms(tx, a, active, s), tail, flags)
    decreases a, 1
  {
    FlagDecides(flags, active);
    match a
    case Last(body) =>
      assert FlattenArms(a) + tail == Flatten(body) + ([EndIf] + tail);
      BodyOnly(tx, body, [EndIf] + tail, s, flags, active);
      var next := if active then Eval(tx, body, s) else Some(s);
      if next.Some? {
        EndsBranch(tx, tail, next.value, flags, active);
      }
    case More(body, others) =>
      assert FlattenArms(a) + tail == Flatten(body) + ([Else] + (FlattenArms(others) + tail));
      BodyOnly(tx, body, [Else] + (FlattenArms(others) + tail), s, flags, active);
      var next := if active then Eval(tx, body, s) else Some(s);
      if next.Some? {
        TogglesBranch(tx, FlattenArms(others) + tail, next.value, flags, active);
        ActiveArms(tx, others, tail, next.value, flags, !active);
      }
  }

  lemma {:induction false} BodyOnly(tx: Tx, body: Block, tail: seq<Op>, s: Stack, flags: seq<bool>, active: bool)
    requires WellFormed(body) && Executing(flags)
    ensures Run(tx, Flatten(body) + tail, Machine(s, flags + [active])) ==
      Then(tx, if active then Eval(tx, body, s) else Some(s), tail, flags + [active])
    decreases body, 2
  {
    FlagDecides(flags, active);
    if active {
      ActiveBlock(tx, body, tail, s, flags + [active]);
    } else {
      InactiveBlock(tx, body, tail, s, flags + [active]);
    }
  }

  /** The flat interpreter accepts a nested script exactly when its structured evaluation ends in a truthy stack. */
  lemma StructuredAccepts(tx: Tx, b: Block, s: Stack)
    requires WellFormed(b)
    ensures Accepts(tx, Flatten(b), s) <==> Eval(tx, b, s).Some? && Truthy(Eval(tx, b, s).value)
  {
    ActiveBlock(tx, b, [], s, []);
    assert Flatten(b) + [] == Flatten(b);
  }

  // ----- nothing but flattened blocks can be accepted

  /** Started at depth `d`, every IF is closed, and ELSE and ENDIF occur only inside one. */
  predicate Closes(ops: seq<Op>, d: nat)
    decreases |ops|
  {
    if ops == [] then d == 0
    else
      match ops[0]
      case If => Closes(ops[1..], d + 1)
      case NotIf => Closes(ops[1..], d + 1)
      case Else => d > 0 && Closes(ops[1..], d)
      case EndIf => d > 0 && Closes(ops[1..], d - 1)
      case _ => Closes(ops[1..], d)
  }

  lemma {:induction false} CompletedCloses(tx: Tx, ops: seq<Op>, m: Machine)
    requires Run(tx, ops, m).Some? && Run(tx, ops, m).value.flags == []
    ensures Closes(ops, |m.flags|)
    decreases |ops|
  {
    hide Dispatch, Executing;
    if ops != [] {
      CompletedCloses(tx, ops[1..], Step(tx, ops[0], m).value);
    }
  }

  /** Parses as long a block as possible; what is left is empty or starts at an ELSE or ENDIF of an outer conditional. */
  lemma {:induction false} ParseBlock(ops: seq<Op>, d: nat) returns (b: Block, rest: seq<Op>)
    requires Closes(ops, d)
    ensures WellFormed(b) && ops == Flatten(b) + rest && Closes(rest, d)
    ensures rest != [] ==> rest[0].Else? || rest[0].EndIf?
    decreases |ops|, 0
  {
    if ops == [] || ops[0].Else? || ops[0].EndIf? {
      return Nil, ops;
    }
    assert ops == [ops[0]] + ops[1..];
    if ops[0].If? || ops[0].NotIf? {
      var arms, tail := ParseArms(ops[1..], d + 1);
      var next;
      next, rest := ParseBlock(tail, d);
      b := Branch(ops[0].NotIf?, arms, next);
    } else {
      var next;
      next, rest := ParseBlock(ops[1..], d);
      b := Plain(ops[0], next);
    }
  }

  lemma {:induction false} ParseArms(ops: seq<Op>, d: nat) returns (a: Arms, rest: seq<Op>)
    requires d > 0 && Closes(ops, d)
    ensures ArmsWellFormed(a) && ops == FlattenArms(a) + rest && Closes(rest, d - 1) && |rest| <= |ops|
    decreases |ops|, 1
  {
    var body, tail := ParseBlock(ops, d);
    assert tail == [tail[0]] + tail[1..];
    if tail[0].EndIf? {
      a, rest := Last(body), tail[1..];
    } else {
      var others;
      others, rest := ParseArms(tail[1..], d);
      a := More(body, others);
    }
  }

  /** The opcode lists the interpreter accepts are exactly the flattened blocks that evaluate to a truthy stack. */
  lemma AcceptedAreStructured(tx: Tx, ops: seq<Op>, s: Stack)
    ensures Accepts(tx, ops, s) <==>
      exists b :: WellFormed(b) && Flatten(b) == ops && Eval(tx, b, s).Some? && Truthy(Eval(tx, b, s).value)
  {
    if Accepts(tx, ops, s) {
      CompletedCloses(tx, ops, Machine(s, []));
      var b, rest := ParseBlock(ops, 0);
      assert rest == [];
      assert Flatten(b) + [] == Flatten(b);
      StructuredAccepts(tx, b, s);
    }
    forall b | WellFormed(b) && Flatten(b) == ops
      ensures Accepts(tx, ops, s) <==> Eval(tx, b, s).Some? && Truthy(Eval(tx, b, s).value)
    {
      StructuredAccepts(tx, b, s);
    }
  }
}
