/** What the receiver holds and answers after any run of honest secrets. */
module ShachainRuns {
  import opened Bytes
  import opened Numbers
  import opened Shachain
  import opened ShachainReceiver

  ghost predicate ValidRun(run: seq<nat>) {
    forall i :: i in run ==> ValidIndex(i)
  }

  ghost function Added(run: seq<nat>): (keys: set<nat>) {
    set i | i in run
  }

  /** The store after adding the generator's own secrets for the indices of `run`, in that order. */
  ghost function HonestStore(h: Hash, seed: Digest, run: seq<nat>): (s: Store)
    requires ValidRun(run)
    ensures ValidKeys(s.Keys)
  {
    if run == [] then map[]
    else
      var i := run[|run| - 1];
      assert i in run;
      Insert(h, HonestStore(h, seed, run[..|run| - 1]), Secret(h, seed, i), i).1
  }

  /** The reference: the secrets of exactly those indices that no other index can derive. */
  ghost function TopStore(h: Hash, seed: Digest, keys: set<nat>): (s: Store)
    requires ValidKeys(keys)
  {
    map i | i in TopKeys(keys) :: Secret(h, seed, i)
  }

  /** Every key lies under a top key. */
  lemma {:induction false} TopCovers(keys: set<nat>, k: nat)
    requires ValidKeys(keys) && k in keys
    ensures Covered(TopKeys(keys), k)
    decreases k
  {
    if Dominated(keys, k) {
      var j :| j in keys && j != k && CanDerive(j, k);
      CanDeriveIsInterval(j, k);
      TopCovers(keys, j);
      var t :| t in TopKeys(keys) && CanDerive(t, j);
      CanDeriveTransitive(t, j, k);
    } else {
      assert CanDerive(k, k);
    }
  }

  /** The top keys cover exactly what all keys cover. */
  lemma CoveredByTop(keys: set<nat>, i: nat)
    requires ValidKeys(keys)
    ensures Covered(TopKeys(keys), i) <==> Covered(keys, i)
  {
    if Covered(keys, i) {
      var k :| k in keys && CanDerive(k, i);
      TopCovers(keys, k);
      var t :| t in TopKeys(keys) && CanDerive(t, k);
      CanDeriveTransitive(t, k, i);
    }
  }

  lemma TopKeysAntichain(keys: set<nat>)
    requires ValidKeys(keys)
    ensures Antichain(TopKeys(keys))
  {
  }

  /** Looking up an honest store gives the generator's secret wherever it answers. */
  lemma HonestLookup(h: Hash, seed: Digest, keys: set<nat>, i: nat)
    requires ValidKeys(keys) && ValidIndex(i)
    ensures Lookup(h, TopStore(h, seed, keys), i) ==
            if Covered(keys, i) then Some(Secret(h, seed, i)) else None
  {
    CoveredByTop(keys, i);
    var s := TopStore(h, seed, keys);
    assert s.Keys == TopKeys(keys);
    if Covered(keys, i) {
      var k :| k in s.Keys && CanDerive(k, i);
      TopKeysAntichain(keys);
      UniqueAncestor(h, s, i, k);
      AncestorAgreesWithSeed(h, seed, k, i);
    }
  }

  lemma TopKeysAbsorb(keys: set<nat>, i: nat)
    requires ValidKeys(keys) && ValidIndex(i) && Covered(keys, i)
    ensures TopKeys(keys + {i}) == TopKeys(keys)
  {
    var top, all := TopKeys(keys), keys + {i};
    forall k | k in all
      ensures k in TopKeys(all) <==> k in top
    {
      var a :| a in keys && CanDerive(a, i);
      assert a in all;
      if k in TopKeys(all) {
        assert k == i ==> a == i;
        assert forall j :: j in keys ==> j in all;
      } else if k in top {
        var j :| j in all && j != k && CanDerive(j, k);
        assert j == i;
        CanDeriveTransitive(a, i, k);
        CanDeriveAntisymmetric(i, k);
        assert false;
      }
    }
  }

  lemma TopKeysExtend(keys: set<nat>, i: nat)
    requires ValidKeys(keys) && ValidIndex(i)
    ensures TopKeys(TopKeys(keys) + {i}) == TopKeys(keys + {i})
  {
    var top, all := TopKeys(keys), keys + {i};
    var some := top + {i};
    forall k | k in all
      ensures k in TopKeys(all) <==> k in TopKeys(some)
    {
      if Dominated(all, k) {
        var j :| j in all && j != k && CanDerive(j, k);
        if j != i {
          TopCovers(keys, j);
          var t :| t in top && CanDerive(t, j);
          CanDeriveTransitive(t, j, k);
          if t == k {
            CanDeriveAntisymmetric(j, k);
          }
          assert Dominated(some, k);
        }
      }
      assert Dominated(some, k) ==> Dominated(all, k);
      if k !in some {
        assert Dominated(keys, k);
        var j :| j in keys && j != k && CanDerive(j, k);
        assert j in all;
      }
    }
  }

  /** Adding an honest secret is always accepted, and keeps exactly the underivable secrets. */
  lemma InsertHonest(h: Hash, seed: Digest, keys: set<nat>, i: nat)
    requires ValidKeys(keys) && ValidIndex(i)
    ensures Insert(h, TopStore(h, seed, keys), Secret(h, seed, i), i) ==
            (Accepted, TopStore(h, seed, keys + {i}))
  {
    HonestLookup(h, seed, keys, i);
    var s := TopStore(h, seed, keys);
    if Covered(keys, i) {
      TopKeysAbsorb(keys, i);
    } else {
      TopKeysExtend(keys, i);
      var r := Insert(h, s, Secret(h, seed, i), i).1;
      assert r.Keys == TopKeys(keys + {i});
      assert r == TopStore(h, seed, keys + {i});
    }
  }

  /** Any secret for an underivable index is accepted, and from then on answers for its whole block: the secrets it
      prunes are never compared with it. Outside the block nothing changes. */
  lemma NewAncestorAnswers(h: Hash, s: Store, secret: Digest, i: nat, t: nat)
    requires ValidKeys(s.Keys) && Antichain(s.Keys) && ValidIndex(i) && !Covered(s.Keys, i)
    ensures var (outcome, after) := Insert(h, s, secret, i);
      && outcome == Accepted && ValidKeys(after.Keys) && Antichain(after.Keys)
      && Lookup(h, after, t) == if CanDerive(i, t) then Some(FromAncestor(h, secret, i, t)) else Lookup(h, s, t)
  {
    var keys, after := s.Keys + {i}, Insert(h, s, secret, i).1;
    assert after.Keys == TopKeys(keys);
    TopKeysAntichain(keys);
    if CanDerive(i, t) {
      UniqueAncestor(h, after, t, i);
    } else if Covered(s.Keys, t) {
      var k :| k in s.Keys && CanDerive(k, t);
      if CanDerive(i, k) {
        CanDeriveTransitive(i, k, t);
      }
      UniqueAncestor(h, s, t, k);
      UniqueAncestor(h, after, t, k);
    }
  }

  ghost predicate AnswersSurvive(h: Hash, s: Store, after: Store)
    requires ValidKeys(s.Keys) && ValidKeys(after.Keys)
  {
    forall t :: ValidIndex(t) && Lookup(h, s, t).Some? ==> Lookup(h, after, t) == Lookup(h, s, t)
  }

  /** The check that is not made: the new secret derives every stored secret it prunes. */
  ghost predicate Consistent(h: Hash, s: Store, secret: Digest, i: nat)
    requires ValidKeys(s.Keys) && ValidIndex(i)
  {
    forall k :: k in s.Keys && CanDerive(i, k) ==> FromAncestor(h, secret, i, k) == s[k]
  }

  /** Storing a secret keeps every earlier answer exactly when it derives the secrets it prunes. */
  lemma SurvivesExactly(h: Hash, s: Store, secret: Digest, i: nat)
    requires ValidKeys(s.Keys) && Antichain(s.Keys) && ValidIndex(i) && !Covered(s.Keys, i)
    ensures ValidKeys(Insert(h, s, secret, i).1.Keys)
    ensures AnswersSurvive(h, s, Insert(h, s, secret, i).1) <==> Consistent(h, s, secret, i)
  {
    hide Lookup, Insert, FromAncestor;
    NewAncestorAnswers(h, s, secret, i, 0);
    var after := Insert(h, s, secret, i).1;
    if AnswersSurvive(h, s, after) {
      forall k | k in s.Keys && CanDerive(i, k)
        ensures FromAncestor(h, secret, i, k) == s[k]
      {
        UniqueAncestor(h, s, k, k);
        FromItself(h, s[k], k);
        NewAncestorAnswers(h, s, secret, i, k);
        assert Lookup(h, after, k) == Lookup(h, s, k);
      }
    }
    if Consistent(h, s, secret, i) {
      forall t | ValidIndex(t) && Lookup(h, s, t).Some?
        ensures Lookup(h, after, t) == Lookup(h, s, t)
      {
        NewAncestorAnswers(h, s, secret, i, t);
        AnswersComeFrom(h, s, t);
        var k :| k in s.Keys && CanDerive(k, t);
        UniqueAncestor(h, s, t, k);
        if CanDerive(i, t) {
          SubtreesLaminar(i, k, t);
          AncestorsCompose(h, secret, i, k, t);
        }
      }
    }
  }

  lemma FromItself(h: Hash, secret: Digest, k: nat)
    requires ValidIndex(k)
    ensures FromAncestor(h, secret, k, k) == secret
  {
  }

  lemma AnswersComeFrom(h: Hash, s: Store, t: nat)
    requires ValidKeys(s.Keys)
    ensures Lookup(h, s, t).Some? <==> Covered(s.Keys, t)
  {
  }

  lemma AddedLast(run: seq<nat>)
    requires run != []
    ensures Added(run) == Added(run[..|run| - 1]) + {run[|run| - 1]}
  {
    assert run == run[..|run| - 1] + [run[|run| - 1]];
  }

  /** Whatever the order, an honest run leaves exactly the secrets of the indices no other added index derives. */
  lemma {:induction false} HonestRun(h: Hash, seed: Digest, run: seq<nat>)
    requires ValidRun(run)
    ensures HonestStore(h, seed, run) == TopStore(h, seed, Added(run))
  {
    if run != [] {
      var i := run[|run| - 1];
      HonestRun(h, seed, run[..|run| - 1]);
      AddedLast(run);
      InsertHonest(h, seed, Added(run[..|run| - 1]), i);
    }
  }

  /** Stored keys never derive one another. */
  lemma HonestAntichain(h: Hash, seed: Digest, run: seq<nat>)
    requires ValidRun(run)
    ensures Antichain(HonestStore(h, seed, run).Keys)
  {
    HonestRun(h, seed, run);
    TopKeysAntichain(Added(run));
    assert HonestStore(h, seed, run).Keys == TopKeys(Added(run));
  }

  /** No honest addition is ever refused. */
  lemma HonestNeverRefused(h: Hash, seed: Digest, run: seq<nat>, i: nat)
    requires ValidRun(run) && ValidIndex(i)
    ensures Insert(h, HonestStore(h, seed, run), Secret(h, seed, i), i).0 == Accepted
  {
    HonestRun(h, seed, run);
    InsertHonest(h, seed, Added(run), i);
  }

  /** After an honest run the receiver answers like the generator, exactly on the derivable indices. */
  lemma HonestAnswers(h: Hash, seed: Digest, run: seq<nat>, i: nat)
    requires ValidRun(run) && ValidIndex(i)
    ensures Lookup(h, HonestStore(h, seed, run), i) ==
            if exists j :: j in run && CanDerive(j, i) then Some(Secret(h, seed, i)) else None
  {
    HonestRun(h, seed, run);
    HonestLookup(h, seed, Added(run), i);
    assert forall j :: j in run <==> j in Added(run);
  }

  // ----- foreign secrets

  /** After an honest run a foreign secret is refused exactly when its index is derivable from an added one. */
  lemma ForeignRefused(h: Hash, seed: Digest, run: seq<nat>, i: nat, foreign: Digest)
    requires ValidRun(run) && ValidIndex(i) && foreign != Secret(h, seed, i)
    ensures Insert(h, HonestStore(h, seed, run), foreign, i).0 == Mismatch <==> exists j :: j in run && CanDerive(j, i)
  {
    HonestAnswers(h, seed, run, i);
  }

  /** Accepted at an underivable index, it falsifies the answer at some index exactly when it does not derive the honest
      secrets it prunes. */
  lemma ForeignFalsifies(h: Hash, seed: Digest, run: seq<nat>, i: nat, foreign: Digest)
    requires ValidRun(run) && ValidIndex(i) && forall j :: j in run ==> !CanDerive(j, i)
    ensures var s := HonestStore(h, seed, run);
      var (outcome, after) := Insert(h, s, foreign, i);
      && outcome == Accepted && ValidKeys(after.Keys)
      && (AnswersSurvive(h, s, after) <==>
        forall k :: k in run && CanDerive(i, k) ==> FromAncestor(h, foreign, i, k) == Secret(h, seed, k))
  {
    hide Lookup, Insert, FromAncestor, Secret;
    var s := HonestStore(h, seed, run);
    HonestAntichain(h, seed, run);
    UncoveredAfter(h, seed, run, i);
    NewAncestorAnswers(h, s, foreign, i, 0);
    SurvivesExactly(h, s, foreign, i);
    var after := Insert(h, s, foreign, i).1;
    forall k | k in run && CanDerive(i, k)
      ensures Lookup(h, s, k) == Some(Secret(h, seed, k)) && Lookup(h, after, k) == Some(FromAncestor(h, foreign, i, k))
    {
      assert CanDerive(k, k);
      HonestAnswers(h, seed, run, k);
      NewAncestorAnswers(h, s, foreign, i, k);
    }
    if forall k :: k in run && CanDerive(i, k) ==> FromAncestor(h, foreign, i, k) == Secret(h, seed, k) {
      HonestRun(h, seed, run);
      assert Consistent(h, s, foreign, i);
    }
  }

  lemma UncoveredAfter(h: Hash, seed: Digest, run: seq<nat>, i: nat)
    requires ValidRun(run) && ValidIndex(i) && forall j :: j in run ==> !CanDerive(j, i)
    ensures !Covered(HonestStore(h, seed, run).Keys, i)
  {
    HonestRun(h, seed, run);
  }

  /** The descent to index 1 flips and hashes once. */
  lemma {:induction false} DescendToOne(h: Hash, p: Digest, from: nat)
    requires 0 < from <= BITS
    ensures Descend(h, p, 1, from) == h(FlipBit(p, 0))
  {
    if from > 1 {
      PowerBits(0, from - 1);
      DescendToOne(h, p, from - 1);
    } else {
      assert Bit(1, 0);
    }
  }

  lemma RootAboveOne()
    ensures ValidRun([1]) && CanDerive(0, 1) && !CanDerive(1, 0) && Height(0) == 48
  {
    CanDeriveIsInterval(1, 0);
    CanDeriveIsInterval(0, 1);
    SpanIsPower();
  }

  /** With index 1 stored honestly, any secret for index 0 is accepted, whatever the hash. The answers survive exactly when
      hashing the foreign and the honest root, each with its lowest bit flipped, gives the same. */
  lemma ForeignRoot(h: Hash, seed: Digest, foreign: Digest)
    ensures ValidRun([1])
    ensures var s := HonestStore(h, seed, [1]);
      var (outcome, after) := Insert(h, s, foreign, 0);
      && outcome == Accepted && ValidKeys(after.Keys)
      && (AnswersSurvive(h, s, after) <==> h(FlipBit(foreign, 0)) == h(FlipBit(seed, 0)))
  {
    hide Insert, FlipBit, AnswersSurvive, CanDerive;
    RootAboveOne();
    ForeignFalsifies(h, seed, [1], 0, foreign);
    DescendToOne(h, seed, 48);
    DescendToOne(h, foreign, 48);
    assert forall k :: k in [1] ==> k == 1;
    assert 1 in [1];
  }

  /** A stand-in hash that keeps 32-byte inputs. */
  function KeepingHash(): (h: Hash) {
    (b: bytes) => if |b| == 32 then b else Zeros(32)
  }

  lemma FlipsOneByte(p: Digest)
    ensures FlipBit(p, 0)[31] == p[31]
  {
  }

  /** Tampering can go unnoticed: wherever the hash tells two roots apart, as one that keeps 32-byte inputs does. */
  lemma TamperedRoot()
    ensures var h := KeepingHash();
      var s, foreign := HonestStore(h, Zeros(32), [1]), Zeros(32)[31 := 1];
      ValidRun([1]) && ValidKeys(Insert(h, s, foreign, 0).1.Keys) &&
      Insert(h, s, foreign, 0).0 == Accepted && !AnswersSurvive(h, s, Insert(h, s, foreign, 0).1)
  {
    hide Insert, FlipBit, AnswersSurvive, HonestStore;
    var h := KeepingHash();
    ForeignRoot(h, Zeros(32), Zeros(32)[31 := 1]);
    FlipsOneByte(Zeros(32));
    FlipsOneByte(Zeros(32)[31 := 1]);
  }

  // ----- the reveal order of BOLT #3: descending indices

  /** The indices from the last one, 2^48 - 1, down to `k`. */
  ghost function Reveals(k: nat): (run: seq<nat>)
    requires k <= SPAN
    ensures forall i :: i in run <==> k <= i < SPAN
    ensures ValidRun(run)
    decreases SPAN - k
  {
    if k == SPAN then [] else Reveals(k + 1) + [k]
  }

  ghost function From(k: nat): (keys: set<nat>)
    requires k <= SPAN
    ensures ValidKeys(keys)
  {
    Added(Reveals(k))
  }

  lemma BlockEnds(k: nat)
    requires ValidIndex(k)
    ensures k + Pow2(Height(k)) <= SPAN
  {
    if k == 0 {
      SpanIsPower();
    } else {
      SpanIsPower();
      BlockNested(0, k);
    }
  }

  /** The aligned power-of-two blocks that partition [k, 2^48), by their starts. */
  ghost function BlockStarts(k: nat): (starts: set<nat>)
    requires k <= SPAN
    decreases SPAN - k
  {
    if k == SPAN then {}
    else
      BlockEnds(k);
      {k} + BlockStarts(k + Pow2(Height(k)))
  }

  lemma {:induction false} BlockStartsFrom(k: nat)
    requires k <= SPAN
    ensures forall s :: s in BlockStarts(k) ==> k <= s < SPAN
    decreases SPAN - k
  {
    if k < SPAN {
      BlockEnds(k);
      BlockStartsFrom(k + Pow2(Height(k)));
    }
  }

  /** The first block, and the blocks behind it. */
  lemma BlockSplit(k: nat)
    requires k < SPAN
    ensures var next := k + Pow2(Height(k));
      && k < next <= SPAN
      && BlockStarts(k) == {k} + BlockStarts(next)
      && forall s :: s in BlockStarts(next) ==> next <= s < SPAN
  {
    BlockEnds(k);
    BlockStartsFrom(k + Pow2(Height(k)));
  }

  lemma FromIs(k: nat)
    requires k <= SPAN
    ensures forall x :: x in From(k) <==> k <= x < SPAN
  {
  }

  lemma {:induction false} TopOfSuffix(k: nat)
    requires k <= SPAN
    ensures TopKeys(From(k)) == BlockStarts(k)
    decreases SPAN - k
  {
    hide Height, Pow2, Dominated, From, TopKeys;
    FromIs(k);
    if k == SPAN {
      assert From(k) == {};
    } else {
      hide BlockStarts;
      BlockSplit(k);
      TopOfSuffix(k + Pow2(Height(k)));
      forall x
        ensures x in TopKeys(From(k)) <==> x in BlockStarts(k)
      {
        SuffixMember(k, x);
      }
    }
  }

  lemma SuffixMember(k: nat, x: nat)
    requires ValidIndex(k) && k + Pow2(Height(k)) <= SPAN
    requires TopKeys(From(k + Pow2(Height(k)))) == BlockStarts(k + Pow2(Height(k)))
    ensures x in TopKeys(From(k)) <==> x in BlockStarts(k)
  {
    hide Height, Pow2, Dominated, From, TopKeys, BlockStarts;
    FromIs(k);
    BlockSplit(k);
    if x in From(k) {
      TopOfSuffixStep(k, x);
    }
  }

  lemma TopOfSuffixStep(k: nat, x: nat)
    requires ValidIndex(k) && x in From(k) && k + Pow2(Height(k)) <= SPAN
    ensures x in TopKeys(From(k)) <==> x == k || x in TopKeys(From(k + Pow2(Height(k))))
  {
    var next := k + Pow2(Height(k));
    CanDeriveIsInterval(k, x);
    if x == k {
      NothingBelow(k);
    } else if x < next {
      assert k in From(k);
    } else {
      BlockDoesNotReach(k, x);
    }
  }

  lemma NothingBelow(k: nat)
    requires ValidIndex(k)
    ensures !Dominated(From(k), k)
  {
    forall j | j in From(k) && CanDerive(j, k)
      ensures j == k
    {
      CanDeriveIsInterval(j, k);
    }
  }

  /** What lies past the block of `k` is dominated only by what lies past it too. */
  lemma BlockDoesNotReach(k: nat, x: nat)
    requires ValidIndex(k) && k + Pow2(Height(k)) <= x < SPAN
    ensures Dominated(From(k), x) <==> Dominated(From(k + Pow2(Height(k))), x)
  {
    hide CanDerive, Height, Pow2;
    var next := k + Pow2(Height(k));
    forall j | j in From(k) && CanDerive(j, x)
      ensures j in From(next)
    {
      CanDeriveIsInterval(j, x);
      if k < j < next {
        BlockNested(k, j);
      }
    }
    assert forall j :: j in From(next) ==> j in From(k);
  }

  lemma SuffixTrailingZeros(k: nat)
    requires ValidIndex(k)
    ensures TrailingZeros(SPAN - k) == Height(k)
  {
    SpanIsPower();
    if k == 0 {
      PowerTrailing(BITS);
    } else {
      ComplementTrailingZeros(k, BITS);
    }
  }

  /** The counted form: one stored secret per one bit of the number of reveals. */
  lemma {:induction false} BlockCount(k: nat)
    requires k <= SPAN
    ensures |BlockStarts(k)| == PopCount(SPAN - k)
    decreases SPAN - k
  {
    if k < SPAN {
      hide BlockStarts, Height, Pow2, TrailingZeros, PopCount;
      BlockSplit(k);
      var next := k + Pow2(Height(k));
      BlockCount(next);
      OneMoreBlock(k, BlockStarts(next));
      OneMoreBit(k, next);
    }
  }

  lemma OneMoreBlock(k: nat, rest: set<nat>)
    requires k !in rest
    ensures |{k} + rest| == 1 + |rest|
  {
  }

  lemma OneMoreBit(k: nat, next: nat)
    requires k < SPAN && next == k + Pow2(Height(k)) <= SPAN
    ensures PopCount(SPAN - k) == 1 + PopCount(SPAN - next)
  {
    hide Height, Pow2, TrailingZeros, PopCount;
    SuffixTrailingZeros(k);
    PopCountClearLowest(SPAN - k);
    assert SPAN - k - Pow2(Height(k)) == SPAN - next;
  }

  lemma {:induction false} ComplementTrailingZeros(k: nat, n: nat)
    requires 0 < k < Pow2(n)
    ensures TrailingZeros(Pow2(n) - k) == TrailingZeros(k)
  {
    if k % 2 == 0 {
      ComplementTrailingZeros(k / 2, n - 1);
      assert (Pow2(n) - k) / 2 == Pow2(n - 1) - k / 2;
    }
  }

  lemma {:induction false} HeightGrows(k: nat, z: nat)
    requires 0 < k && z == TrailingZeros(k)
    ensures TrailingZeros(k + Pow2(z)) > z
  {
    if z > 0 {
      HeightGrows(k / 2, z - 1);
      assert (k + Pow2(z)) / 2 == k / 2 + Pow2(z - 1);
    }
  }

  /** The block behind a block is larger. */
  lemma NextHigher(k: nat)
    requires ValidIndex(k) && k + Pow2(Height(k)) < SPAN
    ensures Height(k + Pow2(Height(k))) > Height(k)
  {
    SpanIsPower();
    HeightGrows(k, Height(k));
  }

  /** Later blocks are strictly larger. */
  lemma {:induction false} BlocksGrow(k: nat, s: nat, t: nat)
    requires k <= SPAN && s in BlockStarts(k) && t in BlockStarts(k) && s < t
    ensures ValidIndex(s) && ValidIndex(t) && Height(s) < Height(t)
    decreases SPAN - k
  {
    BlockStartsFrom(k);
    hide BlockStarts, Height, Pow2;
    BlockSplit(k);
    var next := k + Pow2(Height(k));
    if s > k {
      BlocksGrow(next, s, t);
    } else {
      NextHigher(k);
      if next < t {
        BlockSplit(next);
        BlocksGrow(next, next, t);
      }
    }
  }

  predicate InBlock(start: nat, i: nat) {
    ValidIndex(start) && start <= i < start + Pow2(Height(start))
  }

  /** Every index of [k, 2^48) lies in exactly one of the blocks. */
  lemma {:induction false} BlocksPartition(k: nat, i: nat)
    requires k <= i < SPAN
    ensures exists s :: s in BlockStarts(k) && InBlock(s, i)
    ensures forall s, t :: s in BlockStarts(k) && t in BlockStarts(k) && InBlock(s, i) && InBlock(t, i) ==> s == t
    decreases SPAN - k
  {
    hide BlockStarts, Height, Pow2;
    BlockSplit(k);
    var next := k + Pow2(Height(k));
    if next <= i {
      BlocksPartition(next, i);
      var s :| s in BlockStarts(next) && InBlock(s, i);
      assert s in BlockStarts(k);
    } else {
      assert k in BlockStarts(k) && InBlock(k, i);
    }
  }

  lemma RevealsPopCount(m: nat)
    requires m <= SPAN
    ensures PopCount(m) <= 48
  {
    SpanIsPower();
    if m == SPAN {
      PowerTrailing(BITS);
      PopCountClearLowest(m);
      assert PopCount(0) == 0;
    } else {
      PopCountBound(m, BITS);
    }
  }

  /** In the reveal order the store holds one secret per aligned block of [k, 2^48), never more than 48. */
  lemma DescendingStore(h: Hash, seed: Digest, k: nat)
    requires k <= SPAN
    ensures HonestStore(h, seed, Reveals(k)).Keys == BlockStarts(k)
    ensures |HonestStore(h, seed, Reveals(k))| == PopCount(SPAN - k) <= 48
  {
    HonestRun(h, seed, Reveals(k));
    TopOfSuffix(k);
    BlockCount(k);
    RevealsPopCount(SPAN - k);
    var s := HonestStore(h, seed, Reveals(k));
    assert s.Keys == TopKeys(Added(Reveals(k)));
    assert |s| == |s.Keys|;
  }

  // ----- other orders: the size is exactly the number of underivable indices

  /** The bound of 48 holds of an honest run exactly when at most 48 of its indices are underivable from the rest. */
  lemma StoreSize(h: Hash, seed: Digest, run: seq<nat>)
    requires ValidRun(run)
    ensures |HonestStore(h, seed, run)| == |TopKeys(Added(run))|
  {
    HonestRun(h, seed, run);
    var s := HonestStore(h, seed, run);
    assert s.Keys == TopKeys(Added(run));
    assert |s| == |s.Keys|;
  }

  /** The odd indices 1, 3, ..., 2n - 1. */
  ghost function Odds(n: nat): (run: seq<nat>) {
    if n == 0 then [] else Odds(n - 1) + [2 * n - 1]
  }

  lemma {:induction false} OddsAdded(n: nat)
    requires 2 * n <= SPAN
    ensures ValidRun(Odds(n)) && |Added(Odds(n))| == n
    ensures forall i :: i in Odds(n) ==> i % 2 == 1 && i < 2 * n
  {
    if n > 0 {
      OddsAdded(n - 1);
      assert Added(Odds(n)) == Added(Odds(n - 1)) + {2 * n - 1};
    }
  }

  lemma OddsAreTop(keys: set<nat>)
    requires ValidKeys(keys) && forall i :: i in keys ==> i % 2 == 1
    ensures TopKeys(keys) == keys
  {
    forall j, k | j in keys && k in keys && CanDerive(j, k)
      ensures j == k
    {
      CanDeriveIsInterval(j, k);
    }
  }

  /** Odd indices derive nothing but themselves, so revealing them keeps one entry each: 49 of them pass the bound. */
  lemma OddRevealsPileUp(h: Hash, seed: Digest, n: nat)
    requires 2 * n <= SPAN
    ensures ValidRun(Odds(n)) && |HonestStore(h, seed, Odds(n))| == n
  {
    OddsAdded(n);
    StoreSize(h, seed, Odds(n));
    OddsAreTop(Added(Odds(n)));
  }

  lemma FortyNineEntries(h: Hash, seed: Digest)
    ensures ValidRun(Odds(49)) && |HonestStore(h, seed, Odds(49))| == 49 > 48
  {
    OddRevealsPileUp(h, seed, 49);
  }
}
