/** Powers of two, trailing zeros, and residues modulo a prime. */
module Numbers {

  function Pow2(k: nat): (p: nat)
    ensures p >= 1
  {
    if k == 0 then 1 else 2 * Pow2(k - 1)
  }

  /** `i >> k`. */
  function ShiftRight(i: nat, k: nat): (r: nat) {
    if k == 0 then i else ShiftRight(i / 2, k - 1)
  }

  /** `(i >> b) & 1`. */
  predicate Bit(i: nat, b: nat) {
    ShiftRight(i, b) % 2 == 1
  }

  lemma {:induction false} ZeroHasNoBits(b: nat)
    ensures ShiftRight(0, b) == 0
  {
    if b > 0 {
      ZeroHasNoBits(b - 1);
    }
  }

  /** A power of two has one bit. */
  lemma {:induction false} PowerBits(m: nat, b: nat)
    ensures Bit(Pow2(m), b) <==> b == m
  {
    if m > 0 && b > 0 {
      PowerBits(m - 1, b - 1);
    } else if b > 0 {
      ZeroHasNoBits(b - 1);
    }
  }

  /** `i` with its low `k` bits cleared. */
  function ClearLow(i: nat, k: nat): (r: nat) {
    if k == 0 then i else 2 * ClearLow(i / 2, k - 1)
  }

  /** The low `k` bits of `i` are zero. */
  predicate Aligned(i: nat, k: nat) {
    k == 0 || (i % 2 == 0 && Aligned(i / 2, k - 1))
  }

  /** The number of trailing zero bits, `(i & -i).bit_length() - 1` for i > 0. */
  function TrailingZeros(i: nat): (z: nat)
    requires i > 0
  {
    if i % 2 == 1 then 0 else 1 + TrailingZeros(i / 2)
  }

  lemma {:induction false} TrailingZerosAligned(i: nat)
    requires i > 0
    ensures Aligned(i, TrailingZeros(i))
    ensures Pow2(TrailingZeros(i)) <= i
  {
    if i % 2 == 0 {
      TrailingZerosAligned(i / 2);
    }
  }

  lemma {:induction false} TrailingZerosBound(i: nat, k: nat)
    requires 0 < i < Pow2(k)
    ensures TrailingZeros(i) < k
  {
    if i % 2 == 0 {
      TrailingZerosBound(i / 2, k - 1);
    }
  }

  /** The number of one bits. */
  function PopCount(m: nat): (c: nat) {
    if m == 0 then 0 else m % 2 + PopCount(m / 2)
  }

  lemma {:induction false} PopCountBound(m: nat, k: nat)
    requires m < Pow2(k)
    ensures PopCount(m) <= k
  {
    if m > 0 {
      PopCountBound(m / 2, k - 1);
    }
  }

  /** Clearing the lowest set bit removes exactly one. */
  lemma {:induction false} PopCountClearLowest(m: nat)
    requires m > 0
    ensures Pow2(TrailingZeros(m)) <= m
    ensures PopCount(m) == 1 + PopCount(m - Pow2(TrailingZeros(m)))
  {
    if m % 2 == 0 {
      PopCountClearLowest(m / 2);
      var rest := m - Pow2(TrailingZeros(m));
      assert rest / 2 == m / 2 - Pow2(TrailingZeros(m / 2)) && rest % 2 == 0;
    } else {
      assert (m - 1) / 2 == m / 2 && (m - 1) % 2 == 0;
    }
  }

  // ----- residues

  lemma MulMonotone(a: int, b: int, d: int)
    requires a <= b && d >= 0
    ensures a * d <= b * d
  {
    assert (b - a) * d >= 0;
  }

  lemma SmallMultiple(k: int, d: int)
    requires d > 0 && -d < k * d < d
    ensures k == 0
  {
    if k > 0 {
      MulMonotone(1, k, d);
    } else if k < 0 {
      MulMonotone(k, -1, d);
    }
  }

  lemma QuotientRemainder(x: int, d: int)
    requires d > 0
    ensures x == (x / d) * d + x % d
  {
  }

  /** Remainders are unique. */
  lemma ModUnique(x: int, d: int, q: int, r: int)
    requires d > 0 && 0 <= r < d && x == q * d + r
    ensures x % d == r
  {
    QuotientRemainder(x, d);
    var q', r' := x / d, x % d;
    ModUniqueStep(d, q, r, q', r');
  }

  lemma ModUniqueStep(d: int, q: int, r: int, q': int, r': int)
    requires 0 <= r < d && 0 <= r' < d && q * d + r == q' * d + r'
    ensures r == r'
  {
    assert (q - q') * d == q * d - q' * d;
    SmallMultiple(q - q', d);
  }

  lemma SmallMod(x: int, n: int)
    requires 0 <= x < n
    ensures x % n == x
  {
  }

  /** Adding a multiple of the modulus changes nothing. */
  lemma ModShift(x: int, k: int, n: int)
    requires n > 0
    ensures (x + k * n) % n == x % n
  {
    QuotientRemainder(x, n);
    Distribute(x / n, k, n);
    ModUnique(x + k * n, n, x / n + k, x % n);
  }

  lemma Distribute(a: int, b: int, n: int)
    ensures (a + b) * n == a * n + b * n
  {
  }

  lemma ModAddLeft(a: int, b: int, n: int)
    requires n > 0
    ensures ((a % n) + b) % n == (a + b) % n
  {
    QuotientRemainder(a, n);
    ModShift((a % n) + b, a / n, n);
  }

  /** Subtracting what was added, across a reduction. */
  lemma ModCancel(x: int, y: int, n: int)
    requires n > 0
    ensures ((x + y) % n - y) % n == x % n
  {
    ModAddLeft(x + y, 0 - y, n);
  }

  lemma ModMulLeft(a: int, b: int, n: int)
    requires n > 0
    ensures ((a % n) * b) % n == (a * b) % n
  {
    QuotientRemainder(a, n);
    var q, r := a / n, a % n;
    Distribute(q * n, r, b);
    assert q * n * b == (q * b) * n;
    ModShift(r * b, q * b, n);
  }

  ghost predicate IsPrime(n: int) {
    n >= 2 && forall d :: 1 < d < n ==> n % d != 0
  }

  /** Euclid's lemma: no product of two non-zero residues vanishes. */
  lemma {:induction false} NoZeroDivisors(a: nat, b: nat, n: nat)
    requires IsPrime(n) && 0 < a < n && 0 < b < n
    ensures (a * b) % n != 0
    decreases a
  {
    if a == 1 {
      assert a * b == b;
    } else if (a * b) % n == 0 {
      NoZeroDivisors(n % a, b, n);
      SmallerZeroDivisor(a, b, n);
      assert false;
    }
  }

  /** If n divides a * b then it divides (n mod a) * b. */
  lemma SmallerZeroDivisor(a: nat, b: nat, n: nat)
    requires 0 < a && 0 < n && (a * b) % n == 0
    ensures ((n % a) * b) % n == 0
  {
    QuotientRemainder(n, a);
    QuotientRemainder(a * b, n);
    var q, r, c := n / a, n % a, (a * b) / n;
    Distribute(q * a, r, b);
    assert q * a * b == q * (a * b) == q * (c * n) == (q * c) * n;
    Distribute(b, -(q * c), n);
    assert r * b == (b - q * c) * n + 0;
    ModUnique(r * b, n, b - q * c, 0);
  }
}
