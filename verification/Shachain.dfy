/** The tree-structured derivation of per-commitment secrets (protocols/shachain.py). */
module Shachain {
  import opened Bytes
  import opened Numbers

  const BITS: nat := 48

  /** 1 << 48, the number of indices. */
  const SPAN: nat := 0x1_0000_0000_0000

  /** SHA-256, of which nothing is assumed but its output length. */
  type Hash = bytes -> Digest

  lemma SpanIsPower()
    ensures Pow2(BITS) == SPAN
  {
    PowerStep(0);
    PowerStep(8);
    PowerStep(16);
    PowerStep(24);
    PowerStep(32);
    PowerStep(40);
  }

  lemma PowerStep(k: nat)
    ensures Pow2(k + 8) == 256 * Pow2(k)
  {
    QuarterStep(k);
    QuarterStep(k + 2);
    QuarterStep(k + 4);
    QuarterStep(k + 6);
  }

  lemma QuarterStep(k: nat)
    ensures Pow2(k + 2) == 4 * Pow2(k)
  {
    assert Pow2(k + 2) == 2 * Pow2(k + 1);
  }

  predicate ValidIndex(i: nat) {
    i < SPAN
  }

  /** `p[b // 8] ^= 1 << (b % 8)`. */
  function FlipBit(p: Digest, b: nat): (r: Digest)
    requires b < BITS
  {
    p[b / 8 := Xor(p[b / 8], [1, 2, 4, 8, 16, 32, 64, 128][b % 8])]
  }

  /** Processes the bits of `i` below `from`, highest first: flip the bit and hash wherever `i` has a one. */
  function Descend(h: Hash, p: Digest, i: nat, from: nat): (r: Digest)
    requires from <= BITS
    decreases from
  {
    if from == 0 then p
    else if Bit(i, from - 1) then Descend(h, h(FlipBit(p, from - 1)), i, from - 1)
    else Descend(h, p, i, from - 1)
  }

  /** The secret of commitment index `i` under `seed`. */
  function Secret(h: Hash, seed: Digest, i: nat): (r: Digest) {
    Descend(h, seed, i, BITS)
  }

  /** Trailing zeros of an index; index 0 is the root above all 48 bits. */
  function Height(i: nat): (z: nat)
    requires ValidIndex(i)
    ensures z <= BITS
  {
    if i == 0 then BITS
    else
      SpanIsPower();
      TrailingZerosBound(i, BITS);
      TrailingZeros(i)
  }

  /** `source & mask == target & mask`; the mask keeps 48 bits and clears the low `Height(source)` of them. */
  predicate CanDerive(source: nat, target: nat)
    requires ValidIndex(source)
  {
    source == target || ClearLow(source, Height(source)) == ClearLow(target % SPAN, Height(source))
  }

  /** `derive_from_ancestor`. */
  function FromAncestor(h: Hash, p: Digest, ancestor: nat, target: nat): (r: Digest)
    requires ValidIndex(ancestor)
  {
    if ancestor == target then p else Descend(h, p, target, Height(ancestor))
  }

  // ----- what a derivation step does

  /** Flipping changes one bit of the 256, the one asked for: bit b % 8 of byte b / 8. */
  lemma FlipsOneBit(p: Digest, b: nat, k: nat)
    requires b < BITS && k < 256
    ensures (Bit(FlipBit(p, b)[k / 8] as nat, k % 8) <==> Bit(p[k / 8] as nat, k % 8)) <==> k != b
  {
    if k / 8 == b / 8 {
      var mask: byte := [1, 2, 4, 8, 16, 32, 64, 128][b % 8];
      XorBitwise(p[b / 8], mask, k % 8);
      MaskIsPower(b % 8);
      PowerBits(b % 8, k % 8);
    }
  }

  lemma MaskIsPower(m: nat)
    requires m < 8
    ensures [1, 2, 4, 8, 16, 32, 64, 128][m] == Pow2(m)
  {
    assert Pow2(1) == 2 && Pow2(2) == 4 && Pow2(3) == 8;
    assert Pow2(4) == 16 && Pow2(5) == 32;
    assert Pow2(6) == 64 && Pow2(7) == 128;
  }

  /** Index 0 is the seed itself; any other index adds to the one without its lowest set bit: flip that bit and hash. */
  lemma SecretStep(h: Hash, seed: Digest, i: nat)
    requires ValidIndex(i)
    ensures i == 0 ==> Secret(h, seed, i) == seed
    ensures i > 0 ==>
      && TrailingZeros(i) < BITS && Pow2(TrailingZeros(i)) <= i
      && Secret(h, seed, i) == h(FlipBit(Secret(h, seed, i - Pow2(TrailingZeros(i))), TrailingZeros(i)))
  {
    hide FlipBit;
    if i == 0 {
      ZeroAligned(BITS);
      DescendZeros(h, seed, 0, BITS, BITS);
    } else {
      SpanIsPower();
      TrailingZerosBound(i, BITS);
      TrailingZerosAligned(i);
      var z := TrailingZeros(i);
      ClearLowest(i);
      DescendLowest(h, seed, i, z, BITS);
    }
  }

  /** Without its lowest set bit an index has the same bits above it and none below. */
  lemma {:induction false} ClearLowest(i: nat)
    requires i > 0
    ensures Pow2(TrailingZeros(i)) <= i
    ensures Bit(i, TrailingZeros(i))
    ensures ClearLow(i, TrailingZeros(i) + 1) == i - Pow2(TrailingZeros(i))
    ensures Aligned(i - Pow2(TrailingZeros(i)), TrailingZeros(i) + 1)
  {
    var z := TrailingZeros(i);
    if i % 2 == 0 {
      var half := i / 2;
      ClearLowest(half);
      assert z == TrailingZeros(half) + 1 && Pow2(z) == 2 * Pow2(z - 1);
      assert ClearLow(i, z + 1) == 2 * ClearLow(half, z) && (Bit(i, z) <==> Bit(half, z - 1));
      hide TrailingZeros, Pow2, ClearLow, Bit;
      var rest := i - Pow2(z);
      assert rest % 2 == 0 && rest / 2 == half - Pow2(z - 1);
    } else {
      assert (i - 1) % 2 == 0;
    }
  }

  lemma DescendLowest(h: Hash, p: Digest, i: nat, z: nat, from: nat)
    requires i > 0 && z == TrailingZeros(i) && z < from <= BITS && Pow2(z) <= i
    ensures Descend(h, p, i, from) == h(FlipBit(Descend(h, p, i - Pow2(z), from), z))
  {
    hide FlipBit;
    ClearLowest(i);
    TrailingZerosAligned(i);
    var rest := i - Pow2(z);
    ClearAligned(rest, z + 1);
    DescendThrough(h, p, rest, i, z + 1, from);
    DescendZeros(h, h(FlipBit(Descend(h, p, rest, from), z)), i, z, z);
  }

  lemma {:induction false} ClearAligned(a: nat, k: nat)
    requires Aligned(a, k)
    ensures ClearLow(a, k) == a
  {
    if k > 0 {
      ClearAligned(a / 2, k - 1);
    }
  }

  /** The height is the position of the lowest set bit, and 48 for the root. */
  lemma HeightIsLowestBit(i: nat)
    requires ValidIndex(i)
    ensures Height(i) == if i == 0 then 48 else TrailingZeros(i)
    ensures i > 0 ==> Bit(i, Height(i)) && forall b :: 0 <= b < Height(i) ==> !Bit(i, b)
  {
    if i > 0 {
      ClearLowest(i);
      TrailingZerosAligned(i);
      forall b | 0 <= b < Height(i)
        ensures !Bit(i, b)
      {
        ZeroBelow(i, b, Height(i));
      }
    }
  }

  /** If the hash tells its inputs apart, different powers of two have different secrets. */
  lemma PowersDiffer(h: Hash, seed: Digest, a: nat, b: nat)
    requires forall x, y :: h(x) == h(y) ==> x == y
    requires a < BITS && b < BITS && a != b
    ensures ValidIndex(Pow2(a)) && ValidIndex(Pow2(b))
    ensures Secret(h, seed, Pow2(a)) != Secret(h, seed, Pow2(b))
  {
    hide FlipBit, Secret;
    PowerSecret(h, seed, a);
    PowerSecret(h, seed, b);
    FlipsOneBit(seed, a, a);
    FlipsOneBit(seed, b, a);
  }

  lemma PowerSecret(h: Hash, seed: Digest, a: nat)
    requires a < BITS
    ensures ValidIndex(Pow2(a)) && Secret(h, seed, Pow2(a)) == h(FlipBit(seed, a))
  {
    hide FlipBit, Secret;
    SpanIsPower();
    PowersGrow(a, BITS);
    PowerTrailing(a);
    SecretStep(h, seed, Pow2(a));
    SecretStep(h, seed, 0);
  }

  lemma {:induction false} PowersGrow(a: nat, b: nat)
    requires a < b
    ensures Pow2(a) < Pow2(b)
  {
    if a > 0 {
      PowersGrow(a - 1, b - 1);
    } else {
      assert Pow2(b) == 2 * Pow2(b - 1);
    }
  }

  lemma {:induction false} PowerTrailing(n: nat)
    ensures TrailingZeros(Pow2(n)) == n
  {
    if n > 0 {
      PowerTrailing(n - 1);
    }
  }

  // ----- the derivation loops, over a mutable buffer

  method FlipAndHash(h: Hash, p: array<byte>, b: nat) returns (q: array<byte>)
    requires p.Length == 32 && b < BITS
    modifies p
    ensures fresh(q) && q.Length == 32 && q[..] == h(FlipBit(old(p[..]), b))
  {
    ghost var before: Digest := p[..];
    p[b / 8] := Xor(p[b / 8], [1, 2, 4, 8, 16, 32, 64, 128][b % 8]);
    assert p[..] == FlipBit(before, b);
    var digest := h(p[..]);
    q := new byte[32](j requires 0 <= j < 32 => digest[j]);
    assert q[..] == digest;
  }

  method DescendLoop(h: Hash, start: Digest, i: nat, from: nat) returns (secret: Digest)
    requires from <= BITS
    ensures secret == Descend(h, start, i, from)
  {
    var p := new byte[32](j requires 0 <= j < 32 => start[j]);
    assert p[..] == start;
    for b := from downto 0
      invariant fresh(p) && p.Length == 32
      invariant Descend(h, p[..], i, b) == Descend(h, start, i, from)
    {
      if ShiftRight(i, b) % 2 == 1 {
        p := FlipAndHash(h, p, b);
      }
    }
    secret := p[..];
  }

  /** `derive_shachain_secret`: None stands for the two ValueErrors. */
  method DeriveSecret(h: Hash, seed: bytes, index: int) returns (secret: Option<Digest>)
    ensures secret.Some? <==> |seed| == 32 && 0 <= index < SPAN
    ensures secret.Some? ==> secret.value == Secret(h, seed, index)
  {
    if |seed| != 32 || index < 0 || index >= SPAN {
      return None;
    }
    var s := DescendLoop(h, seed, index, 48);
    return Some(s);
  }

  method DeriveFromAncestor(h: Hash, ancestorSecret: Digest, ancestor: nat, target: nat) returns (secret: Digest)
    requires ValidIndex(ancestor)
    ensures secret == FromAncestor(h, ancestorSecret, ancestor, target)
  {
    if ancestor == target {
      return ancestorSecret;
    }
    secret := DescendLoop(h, ancestorSecret, target, Height(ancestor));
  }

  // ----- subtrees are intervals

  lemma {:induction false} HeightAligned(a: nat)
    requires ValidIndex(a)
    ensures Aligned(a, Height(a))
  {
    if a == 0 {
      ZeroAligned(BITS);
    } else {
      TrailingZerosAligned(a);
    }
  }

  lemma {:induction false} ZeroAligned(k: nat)
    ensures Aligned(0, k)
  {
    if k > 0 {
      ZeroAligned(k - 1);
    }
  }

  lemma {:induction false} BlockIsInterval(a: nat, t: nat, k: nat)
    requires Aligned(a, k)
    ensures ClearLow(a, k) == a
    ensures ClearLow(t, k) == a <==> a <= t < a + Pow2(k)
  {
    if k > 0 {
      BlockIsInterval(a / 2, t / 2, k - 1);
    }
  }

  /** `can_derive(a, t)` says exactly that `t` lies in the block of size 2^height starting at `a`; of an index past the
      last one only the low 48 bits count. */
  lemma CanDeriveIsInterval(a: nat, t: nat)
    requires ValidIndex(a)
    ensures CanDerive(a, t) <==> a <= t % SPAN < a + Pow2(Height(a))
    ensures ValidIndex(t) ==> t % SPAN == t
  {
    HeightAligned(a);
    BlockIsInterval(a, t % SPAN, Height(a));
  }

  lemma {:induction false} AlignedNested(a: nat, za: nat, b: nat, zb: nat)
    requires Aligned(a, za) && Aligned(b, zb) && a < b < a + Pow2(za)
    ensures zb < za && b + Pow2(zb) <= a + Pow2(za)
  {
    if zb > 0 {
      AlignedNested(a / 2, za - 1, b / 2, zb - 1);
    }
  }

  /** An index inside the block of `a`, other than `a`, has a smaller height and its block stays inside. */
  lemma BlockNested(a: nat, b: nat)
    requires ValidIndex(a) && ValidIndex(b)
    requires a < b < a + Pow2(Height(a))
    ensures Height(b) < Height(a)
    ensures b + Pow2(Height(b)) <= a + Pow2(Height(a))
  {
    HeightAligned(a);
    HeightAligned(b);
    AlignedNested(a, Height(a), b, Height(b));
  }

  lemma CanDeriveAntisymmetric(a: nat, b: nat)
    requires ValidIndex(a) && ValidIndex(b) && CanDerive(a, b) && CanDerive(b, a)
    ensures a == b
  {
    CanDeriveIsInterval(a, b);
    CanDeriveIsInterval(b, a);
  }

  lemma CanDeriveTransitive(a: nat, b: nat, c: nat)
    requires ValidIndex(a) && ValidIndex(b) && CanDerive(a, b) && CanDerive(b, c)
    ensures CanDerive(a, c)
  {
    CanDeriveIsInterval(a, b);
    CanDeriveIsInterval(b, c);
    CanDeriveIsInterval(a, c);
    if a < b {
      BlockNested(a, b);
    }
  }

  /** Two ancestors of one index are comparable: any two subtrees are nested or disjoint. */
  lemma SubtreesLaminar(a: nat, b: nat, t: nat)
    requires ValidIndex(a) && ValidIndex(b) && CanDerive(a, t) && CanDerive(b, t)
    ensures CanDerive(a, b) || CanDerive(b, a)
  {
    CanDeriveIsInterval(a, t);
    CanDeriveIsInterval(b, t);
    CanDeriveIsInterval(a, b);
    CanDeriveIsInterval(b, a);
  }

  // ----- derivation through an ancestor equals derivation from the seed

  lemma {:induction false} SameHighBits(a: nat, t: nat, k: nat, b: nat)
    requires k <= b && ClearLow(a, k) == ClearLow(t, k)
    ensures Bit(a, b) == Bit(t, b)
  {
    if k > 0 {
      SameHighBits(a / 2, t / 2, k - 1, b - 1);
      assert ShiftRight(a, b) == ShiftRight(a / 2, b - 1);
      assert ShiftRight(t, b) == ShiftRight(t / 2, b - 1);
    }
  }

  lemma {:induction false} ZeroBelow(a: nat, b: nat, z: nat)
    requires b < z && Aligned(a, z)
    ensures !Bit(a, b)
  {
    if b > 0 {
      ZeroBelow(a / 2, b - 1, z - 1);
      assert ShiftRight(a, b) == ShiftRight(a / 2, b - 1);
    }
  }

  /** Below its height an index has no ones, so nothing is left to process. */
  lemma {:induction false} DescendZeros(h: Hash, p: Digest, a: nat, from: nat, z: nat)
    requires from <= z <= BITS && Aligned(a, z)
    ensures Descend(h, p, a, from) == p
  {
    if from > 0 {
      ZeroBelow(a, from - 1, z);
      DescendZeros(h, p, a, from - 1, z);
    }
  }

  /** The descent to `t` factors through any `a` that agrees with `t` from bit `z` up and is zero below. */
  lemma {:induction false} DescendThrough(h: Hash, p: Digest, a: nat, t: nat, z: nat, from: nat)
    requires z <= from <= BITS && Aligned(a, z) && ClearLow(a, z) == ClearLow(t, z)
    ensures Descend(h, p, t, from) == Descend(h, Descend(h, p, a, from), t, z)
    decreases from
  {
    if from == z {
      DescendZeros(h, p, a, z, z);
    } else {
      var b := from - 1;
      SameHighBits(a, t, z, b);
      DescendThrough(h, if Bit(t, b) then h(FlipBit(p, b)) else p, a, t, z, b);
    }
  }

  /** Deriving through an ancestor agrees with the generator. */
  lemma AncestorAgreesWithSeed(h: Hash, seed: Digest, a: nat, t: nat)
    requires ValidIndex(a) && ValidIndex(t) && CanDerive(a, t)
    ensures FromAncestor(h, Secret(h, seed, a), a, t) == Secret(h, seed, t)
  {
    HeightAligned(a);
    SmallMod(t, SPAN);
    DescendThrough(h, seed, a, t, Height(a), BITS);
  }

  /** Derivation composes along chains of ancestors, whatever secret it starts from. */
  lemma AncestorsCompose(h: Hash, p: Digest, a: nat, b: nat, t: nat)
    requires ValidIndex(a) && ValidIndex(b) && ValidIndex(t) && CanDerive(a, b) && CanDerive(b, t)
    ensures FromAncestor(h, FromAncestor(h, p, a, b), b, t) == FromAncestor(h, p, a, t)
  {
    if a != b && b != t {
      CanDeriveIsInterval(a, b);
      BlockNested(a, b);
      CanDeriveIsInterval(b, t);
      HeightAligned(b);
      DescendThrough(h, p, b, t, Height(b), Height(a));
    }
  }
}
