/** The mutable interpreter (bitcoin/interpreter.py, ScriptInterpreter). */
module Interpreter {
  import opened Bytes
  import opened Script

  class ScriptInterpreter {
    const tx: Tx
    const ops: seq<Op>
    var evalStack: Stack
    var execStack: seq<bool>
    var pc: nat

    function Machine(): (m: Script.Machine)
      reads this
    {
      Script.Machine(evalStack, execStack)
    }

    constructor (tx: Tx, ops: seq<Op>, initial: Stack)
      ensures this.tx == tx && this.ops == ops && pc == 0 && Machine() == Script.Machine(initial, [])
    {
      this.tx, this.ops, evalStack, execStack, pc := tx, ops, initial, [], 0;
    }

    /** `execute`: true iff it returns True; otherwise it raised. */
    method Execute() returns (ok: bool)
      requires pc == 0 && execStack == []
      modifies this
      ensures ok == Accepts(tx, ops, old(evalStack))
    {
      ghost var start := Machine();
      assert ops[0..] == ops;
      while pc < |ops|
        invariant pc <= |ops|
        invariant Run(tx, ops[pc..], Machine()) == Run(tx, ops, start)
      {
        hide Control, Dispatch;
        var op := ops[pc];
        assert ops[pc..][0] == op && ops[pc..][1..] == ops[pc + 1..];
        pc := pc + 1;
        var done := true;
        if IsControl(op) {
          done := HandleControlFlow(op);
        } else if Executing(execStack) {
          done := DispatchOpcode(op);
        }
        if !done {
          return false;
        }
      }
      assert ops[pc..] == [];
      return execStack == [] && evalStack != [] && CastToBool(Top(evalStack));
    }

    method HandleControlFlow(op: Op) returns (done: bool)
      requires IsControl(op)
      modifies this`evalStack, this`execStack
      ensures done == Control(op, old(Machine())).Some?
      ensures done ==> Control(op, old(Machine())) == Some(Machine())
    {
      if op.If? || op.NotIf? {
        if !Executing(execStack) {
          execStack := execStack + [false];
        } else {
          if |evalStack| < 1 {
            return false;
          }
          var condition := CastToBool(Top(evalStack));
          evalStack := Pop(evalStack);
          if op.NotIf? {
            condition := !condition;
          }
          execStack := execStack + [condition];
        }
        return true;
      }
      if |execStack| == 0 {
        return false;
      }
      var last := |execStack| - 1;
      execStack := if op.Else? then execStack[last := !execStack[last]] else execStack[..last];
      return true;
    }

    method DispatchOpcode(op: Op) returns (done: bool)
      requires !IsControl(op)
      modifies this`evalStack
      ensures done == Dispatch(tx, op, old(evalStack)).Some?
      ensures done ==> Dispatch(tx, op, old(evalStack)) == Some(evalStack)
    {
      match op {
        case Data(data) => Push(data);
        case Small(n) => Push(PushSmall(n));
        case NumOp(n) => Push(if n == 0 then [] else [n as byte]);
        case Drop =>
          if |evalStack| < 1 {
            return false;
          }
          evalStack := Pop(evalStack);
        case TwoDrop =>
          if |evalStack| < 2 {
            return false;
          }
          evalStack := Pop(evalStack);
          evalStack := Pop(evalStack);
        case Dup =>
          if |evalStack| < 1 {
            return false;
          }
          Push(Top(evalStack));
        case IfDup =>
          if |evalStack| < 1 {
            return false;
          }
          if CastToBool(Top(evalStack)) {
            Push(Top(evalStack));
          }
        case Equal(verify) =>
          if |evalStack| < 2 {
            return false;
          }
          var a := Top(evalStack);
          evalStack := Pop(evalStack);
          var b := Top(evalStack);
          evalStack := Pop(evalStack);
          done := Conclude(a == b, verify);
          return;
        case Hash(kind) =>
          if |evalStack| < 1 {
            return false;
          }
          var value := Top(evalStack);
          evalStack := Pop(evalStack);
          Push(tx.hash(kind, value));
        case Cltv => return |evalStack| >= 1 && LockTimeMet(tx, SignedLittleEndian(Top(evalStack)));
        case Csv => return |evalStack| >= 1 && SequenceMet(tx, SignedLittleEndian(Top(evalStack)));
        case CheckSig(verify) =>
          if |evalStack| < 2 {
            return false;
          }
          var pubkey := Top(evalStack);
          evalStack := Pop(evalStack);
          var sig := Top(evalStack);
          evalStack := Pop(evalStack);
          done := Conclude(if sig == [] then false else tx.verifies(pubkey, sig), verify);
          return;
        case CheckMultiSig(verify) =>
          done := OpCheckMultiSig(verify);
          return;
      }
      return true;
    }

    method Push(v: bytes)
      modifies this`evalStack
      ensures evalStack == old(evalStack) + [v]
    {
      evalStack := evalStack + [v];
    }

    /** The end of an EQUAL or CHECKSIG: a pushed verdict, or for the VERIFY form a possible failure. */
    method Conclude(valid: bool, verify: bool) returns (done: bool)
      modifies this`evalStack
      ensures done == Verdict(old(evalStack), valid, verify).Some?
      ensures done ==> Verdict(old(evalStack), valid, verify) == Some(evalStack)
    {
      if verify {
        return valid;
      }
      evalStack := evalStack + [Bool(valid)];
      return true;
    }

    /** Pops `n` items off the evaluation stack, the top one first; false when it runs out. */
    method PopItems(n: int) returns (items: seq<bytes>, done: bool)
      modifies this`evalStack
      ensures done == PopMany(old(evalStack), n).Some?
      ensures done ==> PopMany(old(evalStack), n) == Some(Popped(items, evalStack))
    {
      items := [];
      var left := n;
      assert forall tail: seq<bytes> :: items + tail == tail;
      while left > 0
        invariant PopMany(old(evalStack), n) ==
          match PopMany(evalStack, left) case None => None case Some(p) => Some(Popped(items + p.items, p.rest))
        decreases left
      {
        if evalStack == [] {
          return items, false;
        }
        ghost var before := items;
        items := items + [Top(evalStack)];
        assert forall tail: seq<bytes> :: before + ([Top(evalStack)] + tail) == items + tail;
        evalStack := Pop(evalStack);
        left := left - 1;
      }
      assert items + [] == items;
      return items, true;
    }

    /** `_op_checkmultisig`, with its loop over two indices. */
    method OpCheckMultiSig(verify: bool) returns (done: bool)
      modifies this`evalStack
      ensures done == MultiSig(tx, old(evalStack), verify).Some?
      ensures done ==> MultiSig(tx, old(evalStack), verify) == Some(evalStack)
    {
      if |evalStack| < 1 {
        return false;
      }
      var keyCount := SignedLittleEndian(Top(evalStack));
      evalStack := Pop(evalStack);
      var keys, popped := PopItems(keyCount);
      if !popped || evalStack == [] {
        return false;
      }
      var sigCount := SignedLittleEndian(Top(evalStack));
      evalStack := Pop(evalStack);
      var sigs;
      sigs, popped := PopItems(sigCount);
      if !popped {
        return false;
      }
      if |evalStack| > 0 {
        evalStack := Pop(evalStack);
      }
      assert MultiSigOperands(old(evalStack)) == Some((keys, sigs, evalStack));
      var matched := MatchLoop(keys, sigs);
      if matched.None? {
        return false;
      }
      if verify {
        return matched.value;
      }
      evalStack := evalStack + [Bool(matched.value)];
      return true;
    }

    method MatchLoop(keys: seq<bytes>, sigs: seq<bytes>) returns (matched: Option<bool>)
      ensures matched == GreedyMatch(tx, sigs, keys)
    {
      var sigIdx, keyIdx := 0, 0;
      assert sigs[0..] == sigs && keys[0..] == keys;
      while sigIdx < |sigs|
        invariant sigIdx <= |sigs| && keyIdx <= |keys|
        invariant GreedyMatch(tx, sigs[sigIdx..], keys[keyIdx..]) == GreedyMatch(tx, sigs, keys)
        decreases |keys| - keyIdx
      {
        if keyIdx >= |keys| {
          return Some(false);
        }
        assert sigs[sigIdx..][0] == sigs[sigIdx] && sigs[sigIdx..][1..] == sigs[sigIdx + 1..];
        assert keys[keyIdx..][0] == keys[keyIdx] && keys[keyIdx..][1..] == keys[keyIdx + 1..];
        if sigs[sigIdx] == [] {
          return None;
        }
        if tx.verifies(keys[keyIdx], sigs[sigIdx]) {
          sigIdx := sigIdx + 1;
        }
        keyIdx := keyIdx + 1;
      }
      return Some(true);
    }
  }
}
