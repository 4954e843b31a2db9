/** The compact store of revealed secrets (protocols/shachain.py, ShachainReceiver). */
module ShachainReceiver {
  import opened Bytes
  import opened Shachain

  type Store = map<nat, Digest>

  datatype Outcome = Accepted | Mismatch | WrongLength

  ghost predicate ValidKeys(keys: set<nat>) {
    forall k :: k in keys ==> ValidIndex(k)
  }

  /** Some key is an ancestor of, or equal to, `i`. */
  ghost predicate Covered(keys: set<nat>, i: nat)
    requires ValidKeys(keys)
  {
    exists k :: k in keys && CanDerive(k, i)
  }

  ghost predicate Antichain(keys: set<nat>)
    requires ValidKeys(keys)
  {
    forall j, k :: j in keys && k in keys && CanDerive(j, k) ==> j == k
  }

  ghost predicate Dominated(keys: set<nat>, k: nat)
    requires ValidKeys(keys)
  {
    exists j :: j in keys && j != k && CanDerive(j, k)
  }

  /** The keys that no other key can derive. */
  ghost function TopKeys(keys: set<nat>): (top: set<nat>)
    requires ValidKeys(keys)
    ensures top <= keys
  {
    set k | k in keys && !Dominated(keys, k)
  }

  ghost function Restrict(s: Store, keys: set<nat>): (r: Store)
    requires keys <= s.Keys
  {
    map k | k in keys :: s[k]
  }

  /** The secret that the store answers for index `i`. */
  ghost function Lookup(h: Hash, s: Store, i: nat): (r: Option<Digest>)
    requires ValidKeys(s.Keys)
  {
    if Covered(s.Keys, i) then
      var k :| k in s.Keys && CanDerive(k, i);
      Some(FromAncestor(h, s[k], k, i))
    else None
  }

  /** What adding a 32-byte secret does: check it when it is derivable, otherwise store it and prune. */
  ghost function Insert(h: Hash, s: Store, secret: Digest, i: nat): (r: (Outcome, Store))
    requires ValidKeys(s.Keys) && ValidIndex(i)
  {
    var known := Lookup(h, s, i);
    if known.Some? then (if known.value == secret then Accepted else Mismatch, s)
    else (Accepted, Restrict(s[i := secret], TopKeys(s.Keys + {i})))
  }

  /** In an antichain at most one key covers an index, so the order in which the store is scanned is irrelevant. */
  lemma UniqueAncestor(h: Hash, s: Store, i: nat, k: nat)
    requires ValidKeys(s.Keys) && Antichain(s.Keys) && k in s.Keys && CanDerive(k, i)
    ensures forall j :: j in s.Keys && CanDerive(j, i) ==> j == k
    ensures Lookup(h, s, i) == Some(FromAncestor(h, s[k], k, i))
  {
    forall j | j in s.Keys && CanDerive(j, i)
      ensures j == k
    {
      SubtreesLaminar(j, k, i);
    }
  }

  /** A key pruned by an earlier one has nothing left to prune. */
  lemma NothingUnder(done: set<nat>, keys: set<nat>, s1: nat)
    requires ValidKeys(done) && ValidKeys(keys) && ValidIndex(s1) && s1 !in keys && Dominated(done, s1)
    requires forall a, b :: a in done && b in keys && CanDerive(a, b) ==> a == b
    ensures forall b :: b in keys ==> !CanDerive(s1, b)
  {
    var s0 :| s0 in done && s0 != s1 && CanDerive(s0, s1);
    forall b | b in keys
      ensures !CanDerive(s1, b)
    {
      if CanDerive(s1, b) {
        CanDeriveTransitive(s0, s1, b);
        CanDeriveAntisymmetric(s0, s1);
        assert false;
      }
    }
  }

  lemma DominatedBy(done: set<nat>, s1: nat, b: nat)
    requires ValidKeys(done) && ValidIndex(s1) && (Dominated(done, b) || (s1 != b && CanDerive(s1, b)))
    ensures Dominated(done + {s1}, b)
  {
    if Dominated(done, b) {
      var a :| a in done && a != b && CanDerive(a, b);
      assert a in done + {s1};
    } else {
      assert s1 in done + {s1};
    }
  }

  class Receiver {
    var elements: Store
    var lastIndex: int

    ghost predicate Valid()
      reads this
    {
      ValidKeys(elements.Keys) && Antichain(elements.Keys)
    }

    constructor ()
      ensures Valid() && elements == map[] && lastIndex == -1
    {
      elements, lastIndex := map[], -1;
    }

    method AddSecret(h: Hash, secret: bytes, index: nat) returns (outcome: Outcome)
      requires Valid() && ValidIndex(index)
      modifies this
      ensures Valid()
      ensures |secret| != 32 ==> outcome == WrongLength && elements == old(elements)
      ensures |secret| == 32 ==> (outcome, elements) == Insert(h, old(elements), secret, index)
      ensures lastIndex == if |secret| == 32 && !Covered(old(elements).Keys, index) then index else old(lastIndex)
    {
      if |secret| != 32 {
        return WrongLength;
      }
      var slots := elements.Keys;
      while slots != {}
        invariant slots <= elements.Keys && elements == old(elements) && lastIndex == old(lastIndex)
        invariant forall k :: k in elements.Keys - slots ==> !CanDerive(k, index)
      {
        var slot :| slot in slots;
        if CanDerive(slot, index) {
          UniqueAncestor(h, elements, index, slot);
          var derived := DeriveFromAncestor(h, elements[slot], slot, index);
          return if derived != secret then Mismatch else Accepted;
        }
        slots := slots - {slot};
      }
      elements := elements[index := secret];
      lastIndex := index;
      Prune();
      assert old(elements)[index := secret].Keys == old(elements).Keys + {index};
      return Accepted;
    }

    /** Deletes every key that another key can derive. */
    method Prune()
      requires ValidKeys(elements.Keys)
      modifies this`elements
      ensures elements == Restrict(old(elements), TopKeys(old(elements).Keys))
      ensures Valid()
    {
      ghost var all := elements;
      var slots := elements.Keys;
      var todo := slots;
      ghost var done: set<nat> := {};
      while todo != {}
        invariant todo <= slots && done == slots - todo
        invariant ValidKeys(elements.Keys) && slots == all.Keys
        invariant TopKeys(slots) <= elements.Keys <= slots && elements == Restrict(all, elements.Keys)
        invariant forall a, b :: a in done && b in elements.Keys && CanDerive(a, b) ==> a == b
        invariant forall b :: b in slots && b !in elements.Keys ==> Dominated(done, b)
      {
        var s1 :| s1 in todo;
        if s1 in elements {
          PruneUnder(s1, slots, all);
        } else {
          NothingUnder(done, elements.Keys, s1);
        }
        forall b | b in slots && b !in elements.Keys
          ensures Dominated(done + {s1}, b)
        {
          DominatedBy(done, s1, b);
        }
        todo, done := todo - {s1}, done + {s1};
      }
      assert elements.Keys == TopKeys(slots);
    }

    /** The inner loop: deletes the proper descendants of `s1`. */
    method PruneUnder(s1: nat, slots: set<nat>, ghost all: Store)
      requires ValidKeys(slots) && s1 in elements.Keys && elements.Keys <= slots == all.Keys
      requires TopKeys(slots) <= elements.Keys && elements == Restrict(all, elements.Keys)
      modifies this`elements
      ensures elements.Keys == set b | b in old(elements).Keys && (b == s1 || !CanDerive(s1, b))
      ensures TopKeys(slots) <= elements.Keys && elements == Restrict(all, elements.Keys)
    {
      var todo := slots;
      while todo != {}
        invariant todo <= slots && TopKeys(slots) <= elements.Keys <= old(elements).Keys
        invariant elements == Restrict(all, elements.Keys)
        invariant forall b :: b in old(elements).Keys ==>
          (b in elements.Keys <==> b in todo || b == s1 || !CanDerive(s1, b))
      {
        var s2 :| s2 in todo;
        if s2 in elements && s1 != s2 && CanDerive(s1, s2) {
          elements := elements - {s2};
        }
        todo := todo - {s2};
      }
    }

    method GetSecret(h: Hash, index: nat) returns (secret: Option<Digest>)
      requires Valid()
      ensures secret == Lookup(h, elements, index)
    {
      if index in elements {
        UniqueAncestor(h, elements, index, index);
        return Some(elements[index]);
      }
      var slots := elements.Keys;
      while slots != {}
        invariant slots <= elements.Keys
        invariant forall k :: k in elements.Keys - slots ==> !CanDerive(k, index)
      {
        var slot :| slot in slots;
        if CanDerive(slot, index) {
          UniqueAncestor(h, elements, index, slot);
          var derived := DeriveFromAncestor(h, elements[slot], slot, index);
          return Some(derived);
        }
        slots := slots - {slot};
      }
      return None;
    }
  }
}
