/** The elliptic-curve helpers of bitcoin/utils.py over a cyclic group of prime order. */
module Curve {
  import opened Bytes
  import opened Numbers

  type Pos = n: nat | n > 0 witness 1

  /**
   * A curve group seen through its points' encodings. The point s * G is represented by the scalar s;
   * `encode` is its compressed encoding and `decode` is the discrete logarithm of a parsed encoding.
   */
  datatype Group = Group(order: Pos, encode: nat -> bytes, decode: bytes -> Option<nat>)

  ghost predicate IsGroup(g: Group) {
    && IsPrime(g.order)
    && (forall s: nat :: 0 < s < g.order ==> g.decode(g.encode(s)) == Some(s) && |g.encode(s)| == 33)
    && (forall b :: g.decode(b).Some? ==> 0 < g.decode(b).value < g.order)
  }

  /** Scalar normalisation: reduce modulo the order, and replace 0 by 1. */
  function Normalise(g: Group, scalar: int): (r: nat)
    ensures r > 0 && (g.order >= 2 ==> r < g.order)
    ensures r == scalar % g.order <==> scalar % g.order != 0
  {
    var r := scalar % g.order;
    if r == 0 then 1 else r
  }

  /** `to_bytes` of a point; the point at infinity has no encoding. */
  function EncodePoint(g: Group, s: nat): (b: Option<bytes>) {
    if s == 0 then None else Some(g.encode(s))
  }

  /** `ec_point_mul`: scalar * G. */
  function PointMul(g: Group, scalar: int): (b: bytes) {
    g.encode(Normalise(g, scalar))
  }

  /** `ec_scalar_mul_point`: scalar * P. None stands for an exception. */
  function ScalarMulPoint(g: Group, scalar: int, point: bytes): (b: Option<bytes>) {
    match g.decode(point)
    case None => None
    case Some(p) => EncodePoint(g, (Normalise(g, scalar) * p) % g.order)
  }

  /** `ec_point_add`: P1 + P2. */
  function PointAdd(g: Group, p1: bytes, p2: bytes): (b: Option<bytes>) {
    match (g.decode(p1), g.decode(p2))
    case (Some(a), Some(b)) => EncodePoint(g, (a + b) % g.order)
    case _ => None
  }

  /** `ec_point_neg`: (N - 1) * P. */
  function PointNeg(g: Group, p: bytes): (b: Option<bytes>) {
    ScalarMulPoint(g, g.order - 1, p)
  }

  /** `ec_point_sub`: P1 + (-P2). */
  function PointSub(g: Group, p1: bytes, p2: bytes): (b: Option<bytes>) {
    match PointNeg(g, p2)
    case None => None
    case Some(n) => PointAdd(g, p1, n)
  }

  lemma NormaliseTwice(g: Group, scalar: int)
    ensures Normalise(g, Normalise(g, scalar)) == Normalise(g, scalar)
  {
    if g.order > 1 {
      SmallMod(Normalise(g, scalar), g.order);
    }
  }

  /** Both ends of a Diffie-Hellman exchange compute the same point. */
  lemma SharedPoint(g: Group, a: nat, b: nat)
    requires IsGroup(g) && 0 < a < g.order && 0 < b < g.order
    ensures ScalarMulPoint(g, a, PointMul(g, b)) == ScalarMulPoint(g, b, PointMul(g, a))
    ensures ScalarMulPoint(g, a, PointMul(g, b)) == Some(g.encode((a * b) % g.order))
    ensures 0 < (a * b) % g.order
  {
    SmallMod(a, g.order);
    SmallMod(b, g.order);
    NoZeroDivisors(a, b, g.order);
    assert a * b == b * a;
  }

  /** `ec_point_mul` gives a multiple of G, and the asked-for one exactly when the scalar is not a multiple of the order. */
  lemma DecodePointMul(g: Group, s: int)
    requires IsGroup(g)
    ensures g.decode(PointMul(g, s)).Some?
    ensures g.decode(PointMul(g, s)) == Some(s % g.order) <==> s % g.order != 0
    ensures PointMul(g, s) == g.encode(Normalise(g, s)) && g.decode(PointMul(g, s)) == Some(Normalise(g, s))
  {
    assert 0 < Normalise(g, s) < g.order;
  }

  lemma DecodeScalarMul(g: Group, s: int, p: bytes)
    requires IsGroup(g) && s % g.order != 0 && g.decode(p).Some?
    ensures ScalarMulPoint(g, s, p).Some?
    ensures g.decode(ScalarMulPoint(g, s, p).value) == Some((s * g.decode(p).value) % g.order)
    ensures ScalarMulPoint(g, s, p) == Some(g.encode((s * g.decode(p).value) % g.order))
  {
    var q := g.decode(p).value;
    NoZeroDivisors(s % g.order, q, g.order);
    ModMulLeft(s, q, g.order);
  }

  lemma NegatedProduct(b: int, n: int)
    requires n > 0
    ensures ((n - 1) * b) % n == (-b) % n
  {
    assert (n - 1) * b == -b + b * n by {
      Distribute(n, -1, b);
    }
    ModShift(-b, b, n);
  }

  lemma AddNegated(a: int, b: int, n: int)
    requires n > 0
    ensures (a + (-b) % n) % n == (a - b) % n
  {
    ModAddLeft(-b, a, n);
  }

  /** Subtraction of points is subtraction of scalars. */
  lemma DecodePointSub(g: Group, p1: bytes, p2: bytes)
    requires IsGroup(g) && g.decode(p1).Some? && g.decode(p2).Some?
    ensures PointSub(g, p1, p2) == EncodePoint(g, (g.decode(p1).value - g.decode(p2).value) % g.order)
  {
    hide Normalise, ScalarMulPoint, IsGroup;
    var n: int, a: int, b: int := g.order, g.decode(p1).value, g.decode(p2).value;
    assert n >= 2 by {
      OrderAtLeastTwo(g);
    }
    SmallMod(n - 1, n);
    DecodeScalarMul(g, n - 1, p2);
    NegatedProduct(b, n);
    AddNegated(a, b, n);
  }

  lemma OrderAtLeastTwo(g: Group)
    requires IsGroup(g)
    ensures g.order >= 2
  {
  }

  /** The point helpers as operations on scalars: zero scalars count as one, and the point at infinity has no encoding. */
  lemma PointHelpers(g: Group, scalar: int, p1: bytes, p2: bytes)
    requires IsGroup(g) && g.decode(p1).Some? && g.decode(p2).Some?
    ensures var n: int, a: int, b: int := g.order, g.decode(p1).value, g.decode(p2).value;
      var s: int := if scalar % n == 0 then 1 else scalar % n;
      && PointMul(g, scalar) == g.encode(s)
      && 0 < (s * a) % n && ScalarMulPoint(g, scalar, p1) == Some(g.encode((s * a) % n))
      && PointAdd(g, p1, p2) == (if (a + b) % n == 0 then None else Some(g.encode((a + b) % n)))
  {
    var n: int, a: int := g.order, g.decode(p1).value;
    NoZeroDivisors(if scalar % n == 0 then 1 else scalar % n, a, n);
  }

  /** The group of order 5, its points encoded by their scalars. */
  function SmallGroup(): (g: Group)
    ensures g.order == 5
  {
    Group(5, (s: nat) => if s < 5 then Zeros(32) + [s as byte] else [],
             (b: bytes) => if |b| == 33 && 0 < b[32] < 5 then Some(b[32] as nat) else None)
  }

  /** Groups as assumed exist. */
  lemma GroupExists()
    ensures IsGroup(SmallGroup()) && SmallGroup().order <= ByteRange(32)
  {
    hide ByteRange;
    RangeGrows(32);
    var g := SmallGroup();
    forall s: nat | 0 < s < g.order
      ensures g.decode(g.encode(s)) == Some(s) && |g.encode(s)| == 33
    {
      assert (Zeros(32) + [s as byte])[32] == s as byte;
    }
    assert IsPrime(5);
  }

  lemma {:induction false} RangeGrows(k: nat)
    requires k > 0
    ensures ByteRange(k) >= 256
  {
    if k > 1 {
      RangeGrows(k - 1);
    }
  }
}
