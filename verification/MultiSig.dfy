/** What the greedy CHECKMULTISIG loop decides (bitcoin/interpreter.py), and the 2-of-2 funding script (bitcoin/contracts.py). */
module MultiSig {
  import opened Bytes
  import opened Script
  import opened ScriptTrees

  /** `f` assigns to each signature a key that it verifies under, keys in strictly increasing order. */
  ghost predicate Matching(tx: Tx, sigs: seq<bytes>, keys: seq<bytes>, f: seq<nat>) {
    && |f| == |sigs|
    && (forall i :: 0 <= i < |f| ==> f[i] < |keys| && SignatureValid(tx, keys[f[i]], sigs[i]))
    && (forall i, j :: 0 <= i < j < |f| ==> f[i] < f[j])
  }

  ghost predicate Matchable(tx: Tx, sigs: seq<bytes>, keys: seq<bytes>) {
    exists f :: Matching(tx, sigs, keys, f)
  }

  function ShiftUp(f: seq<nat>): (g: seq<nat>)
    ensures |g| == |f|
  {
    seq(|f|, i requires 0 <= i < |f| => f[i] + 1)
  }

  function ShiftDown(f: seq<nat>): (g: seq<nat>)
    requires forall i :: 0 <= i < |f| ==> f[i] > 0
    ensures |g| == |f|
  {
    seq(|f|, i requires 0 <= i < |f| => f[i] - 1)
  }

  /** A matching into the later keys is one into all keys. */
  lemma MatchLater(tx: Tx, sigs: seq<bytes>, keys: seq<bytes>)
    requires keys != [] && Matchable(tx, sigs, keys[1..])
    ensures Matchable(tx, sigs, keys)
  {
    var f :| Matching(tx, sigs, keys[1..], f);
    var g := ShiftUp(f);
    forall i | 0 <= i < |g|
      ensures g[i] < |keys| && SignatureValid(tx, keys[g[i]], sigs[i])
    {
      assert keys[1..][f[i]] == keys[g[i]];
    }
    assert Matching(tx, sigs, keys, g);
  }

  lemma MatchFirst(tx: Tx, sigs: seq<bytes>, keys: seq<bytes>)
    requires sigs != [] && keys != [] && SignatureValid(tx, keys[0], sigs[0]) && Matchable(tx, sigs[1..], keys[1..])
    ensures Matchable(tx, sigs, keys)
  {
    var f :| Matching(tx, sigs[1..], keys[1..], f);
    var g := [0] + ShiftUp(f);
    forall i | 0 <= i < |g|
      ensures g[i] < |keys| && SignatureValid(tx, keys[g[i]], sigs[i])
    {
      if i > 0 {
        assert f[i - 1] < |keys[1..]| && SignatureValid(tx, keys[1..][f[i - 1]], sigs[1..][i - 1]);
      }
    }
    forall i, j | 0 <= i < j < |g|
      ensures g[i] < g[j]
    {
      if i > 0 {
        assert f[i - 1] < f[j - 1];
      }
    }
    assert Matching(tx, sigs, keys, g);
  }

  /** Taking the first key for the first signature, when it fits, never spoils a matching. */
  lemma DropFirst(tx: Tx, sigs: seq<bytes>, keys: seq<bytes>)
    requires sigs != [] && keys != [] && Matchable(tx, sigs, keys)
    ensures Matchable(tx, sigs[1..], keys[1..])
    ensures SignatureValid(tx, keys[0], sigs[0]) || Matchable(tx, sigs, keys[1..])
  {
    var f :| Matching(tx, sigs, keys, f);
    var tail := f[1..];
    forall i | 0 <= i < |tail|
      ensures tail[i] > 0
    {
      assert f[0] < f[i + 1];
    }
    var g := ShiftDown(tail);
    forall i | 0 <= i < |g|
      ensures g[i] < |keys[1..]| && SignatureValid(tx, keys[1..][g[i]], sigs[1..][i])
    {
      assert SignatureValid(tx, keys[f[i + 1]], sigs[i + 1]);
    }
    assert Matching(tx, sigs[1..], keys[1..], g);
    if !SignatureValid(tx, keys[0], sigs[0]) {
      assert f[0] > 0;
      forall i | 0 <= i < |f|
        ensures f[i] > 0
      {
        if i > 0 {
          assert f[0] < f[i];
        }
      }
      var h := ShiftDown(f);
      forall i | 0 <= i < |h|
        ensures h[i] < |keys[1..]| && SignatureValid(tx, keys[1..][h[i]], sigs[i])
      {
        assert SignatureValid(tx, keys[f[i]], sigs[i]);
      }
      assert Matching(tx, sigs, keys[1..], h);
    }
  }

  lemma FirstAssigned(tx: Tx, sigs: seq<bytes>, keys: seq<bytes>)
    requires sigs != [] && Matchable(tx, sigs, keys)
    ensures keys != [] && sigs[0] != []
  {
    var f :| Matching(tx, sigs, keys, f);
    assert f[0] < |keys| && SignatureValid(tx, keys[f[0]], sigs[0]);
  }

  /** The greedy loop succeeds exactly when some order-preserving assignment of signatures to keys verifies throughout. */
  lemma {:induction false} GreedyIsComplete(tx: Tx, sigs: seq<bytes>, keys: seq<bytes>)
    ensures GreedyMatch(tx, sigs, keys) == Some(true) <==> Matchable(tx, sigs, keys)
    decreases |keys|
  {
    if sigs == [] {
      assert Matching(tx, sigs, keys, []);
    } else if keys == [] || sigs[0] == [] {
      if Matchable(tx, sigs, keys) {
        FirstAssigned(tx, sigs, keys);
        assert false;
      }
    } else {
      if Matchable(tx, sigs, keys) {
        DropFirst(tx, sigs, keys);
      }
      if tx.verifies(keys[0], sigs[0]) {
        GreedyIsComplete(tx, sigs[1..], keys[1..]);
        if Matchable(tx, sigs[1..], keys[1..]) {
          MatchFirst(tx, sigs, keys);
        }
      } else {
        GreedyIsComplete(tx, sigs, keys[1..]);
        if Matchable(tx, sigs, keys[1..]) {
          MatchLater(tx, sigs, keys);
        }
      }
    }
  }

  /** An empty signature raises exactly if it is reached: the signatures before it match keys before the last. */
  lemma {:induction false} EmptySignatureStops(tx: Tx, before: seq<bytes>, after: seq<bytes>, keys: seq<bytes>)
    requires forall i :: 0 <= i < |before| ==> before[i] != []
    ensures GreedyMatch(tx, before + [[]] + after, keys) == None <==>
      keys != [] && GreedyMatch(tx, before, keys[..|keys| - 1]) == Some(true)
    decreases |keys|
  {
    var sigs := before + [[]] + after;
    if keys != [] && before != [] {
      var front := keys[..|keys| - 1];
      assert sigs[0] == before[0] && sigs[1..] == before[1..] + [[]] + after;
      if tx.verifies(keys[0], before[0]) {
        EmptySignatureStops(tx, before[1..], after, keys[1..]);
      } else {
        EmptySignatureStops(tx, before, after, keys[1..]);
      }
      if |keys| > 1 {
        assert front[0] == keys[0] && front[1..] == keys[1..][..|keys[1..]| - 1];
      } else {
        assert front == [];
      }
    }
  }

  lemma {:induction false} NoEmptySignature(tx: Tx, sigs: seq<bytes>, keys: seq<bytes>)
    requires forall i :: 0 <= i < |sigs| ==> sigs[i] != []
    ensures GreedyMatch(tx, sigs, keys).Some?
    decreases |keys|
  {
    if sigs != [] && keys != [] {
      if tx.verifies(keys[0], sigs[0]) {
        NoEmptySignature(tx, sigs[1..], keys[1..]);
      } else {
        NoEmptySignature(tx, sigs, keys[1..]);
      }
    }
  }

  // ----- any m of n on the stack

  lemma {:induction false} PopsAll(s: Stack, items: seq<bytes>)
    ensures PopMany(s + items, |items|) == Some(Popped(Reversed(items), s))
  {
    var n := |items|;
    if n == 0 {
      assert s + items == s;
    } else {
      var full := s + items;
      assert Top(full) == items[n - 1] && Pop(full) == s + items[..n - 1];
      PopsAll(s, items[..n - 1]);
      assert [items[n - 1]] + Reversed(items[..n - 1]) == Reversed(items);
    }
  }

  /** Matching both lists from the end is matching them from the front. */
  lemma MatchReversed(tx: Tx, sigs: seq<bytes>, keys: seq<bytes>)
    requires Matchable(tx, Reversed(sigs), Reversed(keys))
    ensures Matchable(tx, sigs, keys)
  {
    hide SignatureValid;
    var f :| Matching(tx, Reversed(sigs), Reversed(keys), f);
    var g := Mirrored(f, |keys|);
    forall i | 0 <= i < |g|
      ensures g[i] < |keys| && SignatureValid(tx, keys[g[i]], sigs[i])
    {
      var k := |f| - 1 - i;
      assert f[k] < |keys| && SignatureValid(tx, Reversed(keys)[f[k]], Reversed(sigs)[k]);
    }
    assert Matching(tx, sigs, keys, g);
  }

  /** The same assignment, counted from the other ends. */
  function Mirrored(f: seq<nat>, n: nat): (g: seq<nat>)
    requires forall i :: 0 <= i < |f| ==> f[i] < n
    requires forall i, j :: 0 <= i < j < |f| ==> f[i] < f[j]
    ensures |g| == |f| && forall i :: 0 <= i < |f| ==> g[i] == n - 1 - f[|f| - 1 - i]
    ensures forall i, j :: 0 <= i < j < |g| ==> g[i] < g[j]
  {
    seq(|f|, i requires 0 <= i < |f| => n - 1 - f[|f| - 1 - i])
  }

  lemma MatchBothWays(tx: Tx, sigs: seq<bytes>, keys: seq<bytes>)
    ensures Matchable(tx, Reversed(sigs), Reversed(keys)) <==> Matchable(tx, sigs, keys)
  {
    if Matchable(tx, Reversed(sigs), Reversed(keys)) {
      MatchReversed(tx, sigs, keys);
    }
    if Matchable(tx, sigs, keys) {
      assert Reversed(Reversed(sigs)) == sigs && Reversed(Reversed(keys)) == keys;
      MatchReversed(tx, Reversed(sigs), Reversed(keys));
    }
  }

  /** CHECKMULTISIG over any m signatures and n keys, above a dummy: its verdict is whether the signatures, none of them empty,
      verify under keys in the same order. */
  lemma MultiSigDecides(tx: Tx, below: Stack, dummy: bytes, sigs: seq<bytes>, m: bytes, keys: seq<bytes>, n: bytes)
    requires SignedLittleEndian(m) == |sigs| && SignedLittleEndian(n) == |keys|
    requires forall i :: 0 <= i < |sigs| ==> sigs[i] != []
    ensures var s := below + [dummy] + sigs + [m] + keys + [n];
      && Dispatch(tx, CheckMultiSig(false), s) == Some(below + [if Matchable(tx, sigs, keys) then [1] else []])
      && Dispatch(tx, CheckMultiSig(true), s) == if Matchable(tx, sigs, keys) then Some(below) else None
  {
    hide Matchable, SignedLittleEndian, GreedyMatch, PopMany;
    var signed := below + [dummy] + sigs;
    var s := signed + [m] + keys + [n];
    assert Top(s) == n && Pop(s) == (signed + [m]) + keys;
    PopsAll(signed + [m], keys);
    assert Top(signed + [m]) == m && Pop(signed + [m]) == (below + [dummy]) + sigs;
    PopsAll(below + [dummy], sigs);
    assert Pop(below + [dummy]) == below;
    NoEmptySignature(tx, Reversed(sigs), Reversed(keys));
    GreedyIsComplete(tx, Reversed(sigs), Reversed(keys));
    MatchBothWays(tx, sigs, keys);
  }

  // ----- the 2-of-2 funding script

  /** Lexicographic order of byte strings. */
  predicate LessEqual(a: bytes, b: bytes) {
    a == [] || (b != [] && (a[0] < b[0] || (a[0] == b[0] && LessEqual(a[1..], b[1..]))))
  }

  /** `create_multisig_2of2`. */
  function MultiSigScript(key1: bytes, key2: bytes): (ops: seq<Op>) {
    var (first, second) := if LessEqual(key1, key2) then (key1, key2) else (key2, key1);
    [Small(2), Data(first), Data(second), Small(2), CheckMultiSig(false)]
  }

  lemma {:induction false} LessEqualTotal(a: bytes, b: bytes)
    ensures LessEqual(a, b) || LessEqual(b, a)
    ensures LessEqual(a, b) && LessEqual(b, a) ==> a == b
    decreases |a|
  {
    if a != [] && b != [] && a[0] == b[0] {
      LessEqualTotal(a[1..], b[1..]);
      assert a == [a[0]] + a[1..] && b == [b[0]] + b[1..];
    }
  }

  /** Lexicographic: one string begins the other, or at the first difference its byte is the smaller one. */
  lemma {:induction false} LexicographicOrder(a: bytes, b: bytes)
    ensures LessEqual(a, b) <==> a <= b || exists i :: 0 <= i < |a| && i < |b| && a[..i] == b[..i] && a[i] < b[i]
    decreases |a|
  {
    if a != [] && b != [] {
      if a[0] == b[0] {
        LexicographicOrder(a[1..], b[1..]);
        if i :| 0 <= i < |a[1..]| && i < |b[1..]| && a[1..][..i] == b[1..][..i] && a[1..][i] < b[1..][i] {
          assert a[..i + 1] == [a[0]] + a[1..][..i] && b[..i + 1] == [b[0]] + b[1..][..i];
          assert a[i + 1] < b[i + 1];
        }
        if i :| 0 <= i < |a| && i < |b| && a[..i] == b[..i] && a[i] < b[i] {
          assert a[1..][..i - 1] == a[..i][1..] && b[1..][..i - 1] == b[..i][1..];
          assert a[1..][i - 1] < b[1..][i - 1];
        }
        assert a <= b <==> a[1..] <= b[1..] by {
          assert a == [a[0]] + a[1..] && b == [b[0]] + b[1..];
        }
      } else {
        assert a[..0] == b[..0];
        if i :| 0 <= i < |a| && i < |b| && a[..i] == b[..i] && a[i] < b[i] {
          assert i > 0 ==> a[..i][0] == b[..i][0];
        }
      }
    }
  }

  /** Both parties build the same script. */
  lemma KeyOrderIrrelevant(key1: bytes, key2: bytes)
    ensures MultiSigScript(key1, key2) == MultiSigScript(key2, key1)
  {
    LessEqualTotal(key1, key2);
  }

  lemma GreedyTwo(tx: Tx, s1: bytes, s2: bytes, k1: bytes, k2: bytes)
    ensures GreedyMatch(tx, [s1, s2], [k1, k2]) == Some(true) <==> SignatureValid(tx, k1, s1) && SignatureValid(tx, k2, s2)
  {
    GreedyIsComplete(tx, [s1, s2], [k1, k2]);
    if SignatureValid(tx, k1, s1) && SignatureValid(tx, k2, s2) {
      assert Matching(tx, [s1, s2], [k1, k2], [0, 1]);
    }
    if Matchable(tx, [s1, s2], [k1, k2]) {
      var f :| Matching(tx, [s1, s2], [k1, k2], f);
      assert f[0] < f[1] < 2;
    }
  }

  lemma PopsTwo(s: Stack)
    ensures PopMany(s, 2) == if |s| < 2 then None else Some(Popped([Top(s), Top(Pop(s))], Pop(Pop(s))))
  {
    if |s| >= 2 {
      var rest := Pop(Pop(s));
      assert PopMany(rest, 0) == Some(Popped([], rest));
      assert [Top(Pop(s))] + [] == [Top(Pop(s))];
      assert PopMany(Pop(s), 1) == Some(Popped([Top(Pop(s))], rest));
      assert [Top(s)] + [Top(Pop(s))] == [Top(s), Top(Pop(s))];
    } else if |s| == 1 {
      assert PopMany(Pop(s), 1) == None;
    }
  }

  lemma TwoIsTwo()
    ensures SignedLittleEndian(PushSmall(2)) == 2
  {
    var b := PushSmall(2);
    assert b[1..] == [0, 0, 0] && b[1..][1..] == [0, 0] && b[1..][1..][1..] == [0] && b[1..][1..][1..][1..] == [];
    assert FromLittleEndian([0]) == 0;
    assert FromLittleEndian([0, 0]) == 0;
    assert FromLittleEndian([0, 0, 0]) == 0;
  }

  /** What CHECKMULTISIG finds: both keys, and as signatures whatever two elements the script was started with on top. */
  lemma FundingOperands(s: Stack, k1: bytes, k2: bytes)
    ensures MultiSigOperands(s + [PushSmall(2)] + [k1] + [k2] + [PushSmall(2)]) ==
      if |s| < 2 then None
      else
        var rest := Pop(Pop(s));
        Some(([k2, k1], [Top(s), Top(Pop(s))], if rest == [] then [] else Pop(rest)))
  {
    hide PushSmall, SignedLittleEndian, PopMany;
    var two := PushSmall(2);
    TwoIsTwo();
    var keyed := s + [two] + [k1] + [k2];
    assert Top(keyed + [two]) == two && Pop(keyed + [two]) == keyed;
    assert Top(keyed) == k2 && Pop(keyed) == s + [two] + [k1];
    assert Top(Pop(keyed)) == k1 && Pop(Pop(keyed)) == s + [two];
    PopsTwo(keyed);
    assert Top(s + [two]) == two && Pop(s + [two]) == s;
    PopsTwo(s);
  }

  lemma PushStep(tx: Tx, data: bytes, s: Stack)
    ensures Dispatch(tx, Data(data), s) == Some(s + [data])
    ensures Dispatch(tx, Small(2), s) == Some(s + [PushSmall(2)])
  {
  }

  /** The funding script pushes its operands and asks for the verdict. */
  lemma FundingRuns(tx: Tx, k1: bytes, k2: bytes, s: Stack)
    ensures Accepts(tx, [Small(2), Data(k1), Data(k2), Small(2), CheckMultiSig(false)], s) <==>
      var r := Dispatch(tx, CheckMultiSig(false), s + [PushSmall(2)] + [k1] + [k2] + [PushSmall(2)]);
      r.Some? && Truthy(r.value)
  {
    hide Eval, Flatten, WellFormed, Dispatch, PushSmall, Accepts, Truthy;
    var two := PushSmall(2);
    var last := Plain(CheckMultiSig(false), Nil);
    var b1 := Plain(Small(2), last);
    var b2 := Plain(Data(k2), b1);
    var b3 := Plain(Data(k1), b2);
    var b := Plain(Small(2), b3);
    var full := s + [two] + [k1] + [k2] + [two];
    var r := Dispatch(tx, CheckMultiSig(false), full);
    if r.Some? {
      NilStep(tx, r.value);
    }
    NilStep(tx, full);
    PlainStep(tx, CheckMultiSig(false), Nil, full);
    PushStep(tx, k2, s + [two] + [k1] + [k2]);
    PlainStep(tx, Small(2), last, s + [two] + [k1] + [k2]);
    PushStep(tx, k2, s + [two] + [k1]);
    PlainStep(tx, Data(k2), b1, s + [two] + [k1]);
    PushStep(tx, k1, s + [two]);
    PlainStep(tx, Data(k1), b2, s + [two]);
    PushStep(tx, k1, s);
    PlainStep(tx, Small(2), b3, s);
    StructuredAccepts(tx, b, s);
    assert Flatten(b) == [Small(2), Data(k1), Data(k2), Small(2), CheckMultiSig(false)];
  }

  /** Spending the funding output, over all stacks: the two elements on top are valid signatures under the sorted keys in
      order. Nothing else on the stack matters, not even whether there is a dummy below the signatures. */
  lemma FundingUnlocks(tx: Tx, key1: bytes, key2: bytes, s: Stack)
    ensures var (first, second) := if LessEqual(key1, key2) then (key1, key2) else (key2, key1);
      Accepts(tx, MultiSigScript(key1, key2), s) <==>
      |s| >= 2 && SignatureValid(tx, first, s[|s| - 2]) && SignatureValid(tx, second, s[|s| - 1])
  {
    hide LessEqual, CastToBool, MultiSigOperands, GreedyMatch, PushSmall, SignatureValid, Accepts;
    var (first, second) := if LessEqual(key1, key2) then (key1, key2) else (key2, key1);
    FundingRuns(tx, first, second, s);
    FundingOperands(s, first, second);
    if |s| >= 2 {
      GreedyTwo(tx, Top(s), Top(Pop(s)), second, first);
    }
    BoolTruth();
  }

  /** `witness_multisig_2of2` unlocks exactly with both signatures in the order of the sorted keys. */
  lemma FundingWitness(tx: Tx, key1: bytes, key2: bytes, sig1: bytes, sig2: bytes)
    ensures var (first, second) := if LessEqual(key1, key2) then (key1, key2) else (key2, key1);
      Accepts(tx, MultiSigScript(key1, key2), [[], sig1, sig2]) <==>
      SignatureValid(tx, first, sig1) && SignatureValid(tx, second, sig2)
  {
    hide Accepts, LessEqual, SignatureValid;
    FundingUnlocks(tx, key1, key2, [[], sig1, sig2]);
  }
}
