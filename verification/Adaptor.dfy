/** Schnorr adaptor signatures (protocols/ptlc.py) and derived revocation keys (bitcoin/utils.py). */
module Adaptor {
  import opened Bytes
  import opened Numbers
  import opened Curve

  datatype Signer = Signer(group: Group, sha256: bytes -> Digest)

  datatype AdaptorSignature = AdaptorSignature(nonce: bytes, scalar: bytes, point: bytes)

  /** The group order, like every scalar, fits in 32 bytes. */
  ghost predicate IsSigner(c: Signer) {
    IsGroup(c.group) && c.group.order <= ByteRange(32)
  }

  function Challenge(c: Signer, nonce: bytes, pubkey: bytes, message: bytes): (e: nat)
    ensures e < c.group.order
  {
    FromBigEndian(c.sha256(nonce + pubkey + message)) % c.group.order
  }

  function Nonce(c: Signer, key: int, point: bytes, message: bytes): (k: nat) {
    Normalise(c.group, FromBigEndian(c.sha256(ToBigEndian(key % c.group.order, 32) + message + point)))
  }

  /** `create_adaptor_signature`: None stands for an exception. */
  function Create(c: Signer, key: int, point: bytes, message: bytes): (a: Option<AdaptorSignature>) {
    var n := c.group.order;
    var p := key % n;
    var k := Nonce(c, key, point, message);
    match PointAdd(c.group, PointMul(c.group, k), point)
    case None => None
    case Some(nonce) =>
      var e := Challenge(c, nonce, PointMul(c.group, p), message);
      Some(AdaptorSignature(nonce, ToBigEndian((k + e * p) % n, 32), point))
  }

  /** `verify_adaptor_signature`: s' * G == (R' - T) + e * P; an exception counts as false. */
  predicate VerifyAdaptor(c: Signer, a: AdaptorSignature, pubkey: bytes, message: bytes) {
    var e := Challenge(c, a.nonce, pubkey, message);
    match (PointSub(c.group, a.nonce, a.point), ScalarMulPoint(c.group, e, pubkey))
    case (Some(r), Some(ep)) => PointAdd(c.group, r, ep) == Some(PointMul(c.group, FromBigEndian(a.scalar)))
    case _ => false
  }

  /** `verify_schnorr_signature`: s * G == R' + e * P; an exception counts as false. */
  predicate VerifyFinal(c: Signer, pubkey: bytes, message: bytes, nonce: bytes, sig: bytes) {
    var s := FromBigEndian(sig) % c.group.order;
    var e := Challenge(c, nonce, pubkey, message);
    match ScalarMulPoint(c.group, e, pubkey)
    case Some(ep) => PointAdd(c.group, nonce, ep) == Some(PointMul(c.group, s))
    case _ => false
  }

  /** `adapt_signature`. */
  function Adapt(c: Signer, a: AdaptorSignature, secret: int): (sig: bytes) {
    ToBigEndian((FromBigEndian(a.scalar) + secret % c.group.order) % c.group.order, 32)
  }

  /** `extract_adaptor_secret`. */
  function Extract(c: Signer, a: AdaptorSignature, sig: bytes): (secret: bytes) {
    ToBigEndian((FromBigEndian(sig) - FromBigEndian(a.scalar)) % c.group.order, 32)
  }

  /** The final scalar minus the adaptor scalar is the secret. */
  lemma ExtractsSecret(c: Signer, a: AdaptorSignature, secret: int)
    requires IsSigner(c)
    ensures FromBigEndian(Extract(c, a, Adapt(c, a, secret))) == secret % c.group.order
  {
    hide FromBigEndian, ToBigEndian, IsGroup, ByteRange;
    var n: int, s' := c.group.order, FromBigEndian(a.scalar);
    var t := secret % n;
    var s := (s' + t) % n;
    BigEndianRoundTrip(s, 32);
    ModCancel(t, s', n);
    SmallMod(t, n);
    BigEndianRoundTrip(t, 32);
  }

  /** Encodings of two scalars are equal only if the scalars are. */
  lemma EncodeInjective(g: Group, a: nat, b: nat)
    requires IsGroup(g) && 0 < a < g.order && 0 < b < g.order && g.encode(a) == g.encode(b)
    ensures a == b
  {
    assert g.decode(g.encode(a)) == Some(a) && g.decode(g.encode(b)) == Some(b);
  }

  /** Comparing an encoded point with a normalised multiple of G compares scalars. */
  lemma EncodedEquals(g: Group, a: nat, s: nat)
    requires IsGroup(g) && a < g.order && s < g.order
    ensures EncodePoint(g, a) == Some(PointMul(g, s)) <==> a != 0 && a == Normalise(g, s)
  {
    SmallMod(s, g.order);
    var b := Normalise(g, s);
    if a != 0 && g.encode(a) == g.encode(b) {
      EncodeInjective(g, a, b);
    }
  }

  /** R' + e * P as a scalar, when the challenge is not replaced. */
  lemma AddChallenge(g: Group, r: bytes, e: nat, pubkey: bytes)
    requires IsGroup(g) && g.decode(r).Some? && g.decode(pubkey).Some? && e < g.order
    ensures ScalarMulPoint(g, e, pubkey).Some?
    ensures PointAdd(g, r, ScalarMulPoint(g, e, pubkey).value) ==
      EncodePoint(g, (g.decode(r).value + Normalise(g, e) * g.decode(pubkey).value) % g.order)
  {
    var n, p, m := g.order, g.decode(pubkey).value, Normalise(g, e);
    SmallMod(e, n);
    SmallMod(m, n);
    DecodeScalarMul(g, m, pubkey);
    assert ScalarMulPoint(g, e, pubkey) == ScalarMulPoint(g, m, pubkey);
    ModAddLeft(m * p, g.decode(r).value, n);
  }

  /** `a` is the adaptor signature created with `key` for the payment point t * G. */
  ghost predicate Created(c: Signer, key: int, t: nat, message: bytes, a: AdaptorSignature) {
    && IsSigner(c) && 0 < t < c.group.order
    && Create(c, key, c.group.encode(t), message) == Some(a)
  }

  lemma CreatedScalars(c: Signer, key: int, t: nat, message: bytes, a: AdaptorSignature)
    requires Created(c, key, t, message, a)
    ensures var g, n, p := c.group, c.group.order, key % c.group.order;
      var k := Nonce(c, key, g.encode(t), message);
      var e := Challenge(c, a.nonce, PointMul(g, p), message);
      && 0 < k < n
      && g.decode(PointMul(g, p)) == Some(Normalise(g, p))
      && (k + t) % n != 0 && g.decode(a.nonce) == Some((k + t) % n)
      && a.point == g.encode(t) && g.decode(a.point) == Some(t)
      && FromBigEndian(a.scalar) == (k + e * p) % n
  {
    hide Challenge, Nonce, FromBigEndian, ToBigEndian, ByteRange;
    var g, n, p := c.group, c.group.order, key % c.group.order;
    var k := Nonce(c, key, g.encode(t), message);
    NonceInRange(c, key, g.encode(t), message);
    SmallMod(k, n);
    DecodePointMul(g, p);
    DecodePointMul(g, k);
    var e := Challenge(c, a.nonce, PointMul(g, p), message);
    BigEndianRoundTrip((k + e * p) % n, 32);
  }

  lemma NonceInRange(c: Signer, key: int, point: bytes, message: bytes)
    requires IsSigner(c)
    ensures 0 < Nonce(c, key, point, message) < c.group.order
  {
  }

  /** The scalar equation with the helpers' replacement of zero by one holds exactly when nothing is replaced. */
  lemma NothingReplaced(g: Group, k: nat, e: nat, p: nat)
    requires 0 < k < g.order && p < g.order && e < g.order
    ensures var n := g.order;
      var s, expected := (k + e * p) % n, (k + Normalise(g, e) * Normalise(g, p)) % n;
      expected != 0 && expected == Normalise(g, s) <==> p != 0 && e != 0 && s != 0
  {
    var n := g.order;
    SmallMod(e, n);
    SmallMod(p, n);
    SmallMod((k + e * p) % n, n);
    if e == 0 || p == 0 {
      SmallMod(k, n);
      var m := if p == 0 then Normalise(g, e) else p;
      assert e * p == 0 && Normalise(g, e) * Normalise(g, p) == m;
      ShiftMoves(k, m, n);
    }
  }

  /** The adaptor equation as an equation between scalars. */
  lemma AdaptorEquation(c: Signer, k: nat, t: nat, pubkey: bytes, e: nat, s: nat, a: AdaptorSignature)
    requires IsGroup(c.group) && 0 < k < c.group.order && 0 < t < c.group.order && s < c.group.order && e < c.group.order
    requires c.group.decode(a.nonce) == Some((k + t) % c.group.order)
    requires c.group.decode(a.point) == Some(t) && c.group.decode(pubkey).Some?
    ensures PointSub(c.group, a.nonce, a.point).Some? && ScalarMulPoint(c.group, e, pubkey).Some?
    ensures var expected := (k + Normalise(c.group, e) * c.group.decode(pubkey).value) % c.group.order;
      PointAdd(c.group, PointSub(c.group, a.nonce, a.point).value, ScalarMulPoint(c.group, e, pubkey).value)
        == Some(PointMul(c.group, s))
      <==> expected != 0 && expected == Normalise(c.group, s)
  {
    hide IsGroup, ScalarMulPoint, PointSub, PointAdd, PointMul, Normalise;
    var g, n := c.group, c.group.order;
    DecodePointSub(g, a.nonce, a.point);
    RemoveTweak(k, t, n);
    EncodeNonZero(g, k);
    AddChallenge(g, g.encode(k), e, pubkey);
    EncodedEquals(g, (k + Normalise(g, e) * g.decode(pubkey).value) % n, s);
  }

  /** A created adaptor signature verifies exactly when neither the private key nor its challenge nor its scalar is zero. */
  lemma CreatedVerifies(c: Signer, key: int, t: nat, message: bytes, a: AdaptorSignature)
    requires Created(c, key, t, message, a)
    ensures var pubkey := PointMul(c.group, key % c.group.order);
      VerifyAdaptor(c, a, pubkey, message) <==>
      key % c.group.order != 0 && Challenge(c, a.nonce, pubkey, message) != 0 && FromBigEndian(a.scalar) != 0
  {
    hide Challenge, Nonce, FromBigEndian, Created, IsGroup, ScalarMulPoint, PointSub, PointAdd, EncodePoint, PointMul, Normalise;
    CreatedScalars(c, key, t, message, a);
    CreatedFacts(c, key, t, message, a);
    var p := key % c.group.order;
    var k, pubkey := Nonce(c, key, c.group.encode(t), message), PointMul(c.group, p);
    var e := Challenge(c, a.nonce, pubkey, message);
    AdaptorEquation(c, k, t, pubkey, e, FromBigEndian(a.scalar), a);
    NothingReplaced(c.group, k, e, p);
  }

  lemma CreatedFacts(c: Signer, key: int, t: nat, message: bytes, a: AdaptorSignature)
    requires Created(c, key, t, message, a)
    ensures IsGroup(c.group) && 0 < t < c.group.order
  {
  }

  lemma EncodeNonZero(g: Group, k: nat)
    requires IsGroup(g) && 0 < k < g.order
    ensures EncodePoint(g, k) == Some(g.encode(k)) && g.decode(g.encode(k)) == Some(k)
  {
  }

  lemma RemoveTweak(k: nat, t: nat, n: int)
    requires 0 <= k < n
    ensures ((k + t) % n - t) % n == k
  {
    ModCancel(k, t, n);
    SmallMod(k, n);
  }

  /** Adding a non-zero residue changes a residue. */
  lemma ShiftMoves(k: nat, m: nat, n: int)
    requires 0 <= k < n && 0 < m < n
    ensures (k + m) % n != k
  {
    if k + m < n {
      SmallMod(k + m, n);
    } else {
      ModUnique(k + m, n, 1, k + m - n);
    }
  }

  /** An adaptor signature adapted with its secret is a valid signature exactly when neither the private key nor its
      challenge nor the final scalar is zero. */
  lemma AdaptedVerifies(c: Signer, key: int, t: nat, message: bytes, a: AdaptorSignature)
    requires Created(c, key, t, message, a)
    ensures var pubkey := PointMul(c.group, key % c.group.order);
      VerifyFinal(c, pubkey, message, a.nonce, Adapt(c, a, t)) <==>
      key % c.group.order != 0 && Challenge(c, a.nonce, pubkey, message) != 0 && FromBigEndian(Adapt(c, a, t)) != 0
  {
    hide Challenge, Nonce, FromBigEndian, Created, IsGroup, VerifyFinal, Adapt, PointMul, Normalise;
    FinalEquation(c, key, t, message, a, t);
    CreatedFacts(c, key, t, message, a);
    CreatedScalars(c, key, t, message, a);
    var n, p := c.group.order, key % c.group.order;
    var k := Nonce(c, key, c.group.encode(t), message);
    var e := Challenge(c, a.nonce, PointMul(c.group, p), message);
    FinalScalar(k, e * p, t, n);
    NothingReplaced(c.group, (k + t) % n, e, p);
  }

  /** Adding the secret after the challenge term or to the nonce gives the same scalar. */
  lemma FinalScalar(k: nat, m: nat, t: nat, n: int)
    requires 0 <= t < n
    ensures ((k + m) % n + t % n) % n == ((k + t) % n + m) % n
  {
    SmallMod(t, n);
    ModAddLeft(k + m, t, n);
    ModAddLeft(k + t, m, n);
  }

  /** Final verification, with any candidate secret, as an equation between scalars. */
  lemma FinalEquation(c: Signer, key: int, t: nat, message: bytes, a: AdaptorSignature, candidate: int)
    requires Created(c, key, t, message, a)
    ensures var g, n, p := c.group, c.group.order, key % c.group.order;
      var e := Challenge(c, a.nonce, PointMul(g, p), message);
      var s := FromBigEndian(Adapt(c, a, candidate));
      var expected := (g.decode(a.nonce).value + Normalise(g, e) * Normalise(g, p)) % n;
      && g.decode(a.nonce).Some?
      && s == (FromBigEndian(a.scalar) + candidate % n) % n
      && (VerifyFinal(c, PointMul(g, p), message, a.nonce, Adapt(c, a, candidate)) <==> expected != 0 && expected == Normalise(g, s))
  {
    hide Challenge, Nonce, FromBigEndian, ToBigEndian, Created, IsGroup, ScalarMulPoint, PointAdd, PointMul, Normalise, EncodePoint, ByteRange;
    CreatedScalars(c, key, t, message, a);
    CreatedFacts(c, key, t, message, a);
    OrderFits(c, key, t, message, a);
    var g, n: int, p := c.group, c.group.order, key % c.group.order;
    var e := Challenge(c, a.nonce, PointMul(g, p), message);
    var s := (FromBigEndian(a.scalar) + candidate % n) % n;
    BigEndianRoundTrip(s, 32);
    SmallMod(s, n);
    AddChallenge(g, a.nonce, e, PointMul(g, p));
    EncodedEquals(g, (g.decode(a.nonce).value + Normalise(g, e) * Normalise(g, p)) % n, s);
  }

  lemma OrderFits(c: Signer, key: int, t: nat, message: bytes, a: AdaptorSignature)
    requires Created(c, key, t, message, a)
    ensures c.group.order <= ByteRange(32)
  {
  }

  /** What the helpers' replacement of zero by one adds to the challenge term. */
  function Excess(g: Group, e: nat, p: nat): (x: int)
    requires e < g.order && p < g.order
    ensures e != 0 && p != 0 ==> x == 0
  {
    SmallMod(e, g.order);
    SmallMod(p, g.order);
    Normalise(g, e) * Normalise(g, p) - e * p
  }

  lemma SameResidue(a: int, b: int, n: int)
    requires n > 0
    ensures a % n == b % n <==> (a - b) % n == 0
  {
    var d := a - b;
    assert a % n == b % n ==> d % n == 0 by {
      ModAddLeft(a, -b, n);
      ModAddLeft(b, -b, n);
    }
    assert d % n == 0 ==> a % n == b % n by {
      ModAddLeft(d, b, n);
    }
  }

  /** Which scalars adapt the signature to a valid one, for every key, challenge and candidate: the secret, corrected by
      whatever the helpers replaced. */
  lemma AdaptsExactly(c: Signer, key: int, t: nat, message: bytes, a: AdaptorSignature, candidate: int)
    requires Created(c, key, t, message, a)
    ensures var n, pubkey := c.group.order, PointMul(c.group, key % c.group.order);
      var zero := if FromBigEndian(Adapt(c, a, candidate)) == 0 then 1 else 0;
      VerifyFinal(c, pubkey, message, a.nonce, Adapt(c, a, candidate)) <==>
      (candidate + zero - t - Excess(c.group, Challenge(c, a.nonce, pubkey, message), key % n)) % n == 0
  {
    hide Challenge, Nonce, FromBigEndian, Created, IsGroup, VerifyFinal, Adapt, PointMul;
    FinalEquation(c, key, t, message, a, candidate);
    CreatedFacts(c, key, t, message, a);
    CreatedScalars(c, key, t, message, a);
    var g, n: int, p := c.group, c.group.order, key % c.group.order;
    var k := Nonce(c, key, g.encode(t), message);
    var e := Challenge(c, a.nonce, PointMul(g, p), message);
    var s := FromBigEndian(Adapt(c, a, candidate));
    var zero := if s == 0 then 1 else 0;
    var m, q := e * p, Normalise(g, e) * Normalise(g, p);
    assert Excess(g, e, p) == q - m;
    hide Normalise, Excess;
    SmallMod(s, n);
    SmallMod(s + zero, n);
    ModAddLeft(k + t, q, n);
    FinalSum(k + m, candidate, zero, s, n);
    SameResidue(k + m + candidate + zero, k + t + q, n);
  }

  lemma FinalSum(u: int, candidate: int, zero: int, s: int, n: int)
    requires 0 < n && s == (u % n + candidate % n) % n
    ensures (s + zero) % n == (u + candidate + zero) % n
  {
    var c := candidate % n;
    assert s == (u + candidate) % n by {
      ModAddLeft(u, c, n);
      ModAddLeft(candidate, u, n);
      assert c + u == u + c && candidate + u == u + candidate;
    }
    ModAddLeft(u + candidate, zero, n);
  }

  /** With a non-zero key, challenge and final scalar the secret itself, and nothing else, adapts the signature. */
  lemma OnlySecretAdapts(c: Signer, key: int, t: nat, message: bytes, a: AdaptorSignature, candidate: int)
    requires Created(c, key, t, message, a)
    ensures var n, pubkey := c.group.order, PointMul(c.group, key % c.group.order);
      key % n != 0 && Challenge(c, a.nonce, pubkey, message) != 0 && FromBigEndian(Adapt(c, a, candidate)) != 0 ==>
      (VerifyFinal(c, pubkey, message, a.nonce, Adapt(c, a, candidate)) <==> candidate % n == t)
  {
    hide Challenge, Nonce, FromBigEndian, Created, IsGroup, VerifyFinal, Adapt, PointMul;
    AdaptsExactly(c, key, t, message, a, candidate);
    CreatedFacts(c, key, t, message, a);
    SmallMod(t, c.group.order);
    SameResidue(candidate, t, c.group.order);
  }

  // ----- the same, down to the bytes that are hashed

  /** What creation returns: k hashes private key, message and point; the nonce is k * G plus the point; the scalar is k plus
      the hash of nonce, public key and message times the private key. */
  lemma CreatedFrom(c: Signer, key: int, point: bytes, message: bytes)
    ensures var g, n := c.group, c.group.order;
      var p: nat := key % n;
      var h: nat := FromBigEndian(c.sha256(ToBigEndian(p, 32) + message + point)) % n;
      var k := if h == 0 then 1 else h;
      var nonce := PointAdd(g, PointMul(g, k), point);
      Create(c, key, point, message) ==
        if nonce.None? then None
        else
          var e := FromBigEndian(c.sha256(nonce.value + PointMul(g, p) + message)) % n;
          Some(AdaptorSignature(nonce.value, ToBigEndian((k + e * p) % n, 32), point))
  {
    hide FromBigEndian, ToBigEndian, PointAdd, PointMul;
  }

  /** Verification of any adaptor signature as an equation between scalars; e hashes nonce, public key and message, and zero
      scalars count as one. */
  lemma VerifiesAdaptorWhen(c: Signer, a: AdaptorSignature, pubkey: bytes, message: bytes)
    requires IsGroup(c.group)
    ensures var g, n: int := c.group, c.group.order;
      var e: int := FromBigEndian(c.sha256(a.nonce + pubkey + message)) % n;
      var s: int := FromBigEndian(a.scalar) % n;
      VerifyAdaptor(c, a, pubkey, message) <==>
      && g.decode(a.nonce).Some? && g.decode(a.point).Some? && g.decode(pubkey).Some?
      && g.decode(a.nonce) != g.decode(a.point)
      && (g.decode(a.nonce).value - g.decode(a.point).value + (if e == 0 then 1 else e) * g.decode(pubkey).value) % n ==
         (if s == 0 then 1 else s)
  {
    hide FromBigEndian, PointMul, ScalarMulPoint, PointAdd, PointSub, Normalise, IsGroup;
    var g, n: int := c.group, c.group.order;
    var e: nat := FromBigEndian(c.sha256(a.nonce + pubkey + message)) % n;
    if g.decode(a.nonce).None? || g.decode(a.point).None? || g.decode(pubkey).None? {
      Undecodable(g, a.nonce, a.point, e, pubkey);
    } else {
      var r, t := g.decode(a.nonce).value, g.decode(a.point).value;
      DecodePointSub(g, a.nonce, a.point);
      DifferenceZero(g, a.nonce, a.point);
      if r != t {
        var d: nat := (r - t) % n;
        EncodeNonZero(g, d);
        AddChallenge(g, g.encode(d), e, pubkey);
        ReducedSum(r - t, Normalise(g, e) * g.decode(pubkey).value, n);
        ScalarEquation(g, (d + Normalise(g, e) * g.decode(pubkey).value) % n, FromBigEndian(a.scalar));
        NormaliseIs(g, e);
      }
    }
  }

  /** Final verification of any signature as an equation between scalars. */
  lemma VerifiesFinalWhen(c: Signer, pubkey: bytes, message: bytes, nonce: bytes, sig: bytes)
    requires IsGroup(c.group)
    ensures var g, n: int := c.group, c.group.order;
      var e: int := FromBigEndian(c.sha256(nonce + pubkey + message)) % n;
      var s: int := FromBigEndian(sig) % n;
      VerifyFinal(c, pubkey, message, nonce, sig) <==>
      && g.decode(nonce).Some? && g.decode(pubkey).Some?
      && (g.decode(nonce).value + (if e == 0 then 1 else e) * g.decode(pubkey).value) % n == (if s == 0 then 1 else s)
  {
    hide FromBigEndian, PointMul, ScalarMulPoint, PointAdd, Normalise, IsGroup;
    var g, n: int := c.group, c.group.order;
    var e: nat := FromBigEndian(c.sha256(nonce + pubkey + message)) % n;
    if g.decode(nonce).None? || g.decode(pubkey).None? {
      Undecodable(g, nonce, nonce, e, pubkey);
    } else {
      AddChallenge(g, nonce, e, pubkey);
      ScalarEquation(g, (g.decode(nonce).value + Normalise(g, e) * g.decode(pubkey).value) % n, FromBigEndian(sig) % n);
      NormaliseIs(g, e);
      SmallMod(FromBigEndian(sig) % n, n);
    }
  }

  lemma Undecodable(g: Group, nonce: bytes, point: bytes, e: nat, pubkey: bytes)
    ensures g.decode(pubkey).None? ==> ScalarMulPoint(g, e, pubkey).None?
    ensures g.decode(nonce).None? || g.decode(point).None? ==> PointSub(g, nonce, point).None?
    ensures g.decode(nonce).None? ==> forall p :: PointAdd(g, nonce, p).None?
  {
  }

  lemma DifferenceZero(g: Group, p1: bytes, p2: bytes)
    requires IsGroup(g) && g.decode(p1).Some? && g.decode(p2).Some?
    ensures var a: int, b: int := g.decode(p1).value, g.decode(p2).value;
      0 <= (a - b) % g.order < g.order && ((a - b) % g.order == 0 <==> a == b)
  {
    var n: int, a: int, b: int := g.order, g.decode(p1).value, g.decode(p2).value;
    SameResidue(a, b, n);
    SmallMod(a, n);
    SmallMod(b, n);
  }

  lemma ReducedSum(x: int, y: int, n: int)
    requires n > 0
    ensures (x % n + y) % n == (x + y) % n
  {
    ModAddLeft(x, y, n);
  }

  lemma NormaliseIs(g: Group, e: nat)
    requires e < g.order
    ensures Normalise(g, e) == if e == 0 then 1 else e
  {
    SmallMod(e, g.order);
  }

  lemma ScalarEquation(g: Group, a: nat, scalar: nat)
    requires IsGroup(g) && a < g.order
    ensures EncodePoint(g, a) == Some(PointMul(g, scalar)) <==>
      a == if scalar % g.order == 0 then 1 else scalar % g.order
  {
    var s: nat := scalar % g.order;
    NormaliseIs(g, s);
    SmallMod(s, g.order);
    EncodedEquals(g, a, s);
    assert PointMul(g, scalar) == PointMul(g, s);
  }

  /** Derived revocation keys: each side weighs base and per-commitment key by the hash of both, its own first. */
  lemma RevocationWritten(c: Signer, baseSecret: int, commitSecret: int)
    requires IsSigner(c)
    ensures var g, n := c.group, c.group.order;
      var s: nat, t: nat := baseSecret % n, commitSecret % n;
      var base, commit := PointMul(g, s), PointMul(g, t);
      var a, b := FromBigEndian(c.sha256(base + commit)) % n, FromBigEndian(c.sha256(commit + base)) % n;
      && RevocationPrivkey(c, baseSecret, commitSecret) == (a * s + b * t) % n
      && ResiduesOf(c, baseSecret, commitSecret) == Residues(s, t, a, b)
      && RevocationPubkey(c, base, commit) == EncodePoint(g,
        ((if a == 0 then 1 else a) * (if s == 0 then 1 else s) + (if b == 0 then 1 else b) * (if t == 0 then 1 else t)) % n)
  {
    hide FromBigEndian, PointMul, RevocationPubkey, IsGroup;
    var g, r := c.group, ResiduesOf(c, baseSecret, commitSecret);
    RevocationPoint(c, baseSecret, commitSecret);
    NormaliseIs(g, r.base);
    NormaliseIs(g, r.commit);
    NormaliseIs(g, r.baseWeight);
    NormaliseIs(g, r.commitWeight);
  }

  /** The signer over the group of order 5 whose hash is always 1. */
  function UnitSigner(): (c: Signer) {
    Signer(SmallGroup(), (b: bytes) => ToBigEndian(1, 32))
  }

  /** The zero private key is accepted, but what it creates neither verifies nor adapts, with challenge and scalars non-zero. */
  lemma ZeroKeyFails(message: bytes)
    ensures var c := UnitSigner();
      var created := Create(c, 0, c.group.encode(1), message);
      && created.Some? && Created(c, 0, 1, message, created.value)
      && var a, pubkey := created.value, PointMul(c.group, 0);
      && Challenge(c, a.nonce, pubkey, message) == 1 && FromBigEndian(a.scalar) == 1 && FromBigEndian(Adapt(c, a, 1)) == 2
      && !VerifyAdaptor(c, a, pubkey, message) && !VerifyFinal(c, pubkey, message, a.nonce, Adapt(c, a, 1))
  {
    hide FromBigEndian, ToBigEndian, IsGroup, VerifyAdaptor, VerifyFinal, ByteRange, SmallGroup;
    var c := UnitSigner();
    GroupExists();
    BigEndianRoundTrip(1, 32);
    BigEndianRoundTrip(2, 32);
    DecodePointMul(c.group, 1);
    EncodeNonZero(c.group, 1);
    EncodeNonZero(c.group, 2);
    var a := Create(c, 0, c.group.encode(1), message).value;
    CreatedVerifies(c, 0, 1, message, a);
    AdaptedVerifies(c, 0, 1, message, a);
  }

  // ----- BOLT #3 revocation keys

  function Weight(c: Signer, first: bytes, second: bytes): (w: nat)
    ensures w < c.group.order
  {
    FromBigEndian(c.sha256(first + second)) % c.group.order
  }

  /** `derive_revocation_pubkey`: None stands for an exception. */
  function RevocationPubkey(c: Signer, base: bytes, commit: bytes): (r: Option<bytes>) {
    var a, b := Weight(c, base, commit), Weight(c, commit, base);
    match (ScalarMulPoint(c.group, a, base), ScalarMulPoint(c.group, b, commit))
    case (Some(p1), Some(p2)) => PointAdd(c.group, p1, p2)
    case _ => None
  }

  /** `derive_revocation_privkey`, as a scalar. */
  function RevocationPrivkey(c: Signer, baseSecret: int, commitSecret: int): (r: nat) {
    var n := c.group.order;
    var s, t := baseSecret % n, commitSecret % n;
    var base, commit := PointMul(c.group, s), PointMul(c.group, t);
    (Weight(c, base, commit) * s + Weight(c, commit, base) * t) % n
  }

  /** The residues behind a key derivation: both secrets, both weights. */
  datatype Residues = Residues(base: nat, commit: nat, baseWeight: nat, commitWeight: nat)

  function ResiduesOf(c: Signer, baseSecret: int, commitSecret: int): (r: Residues)
    ensures r.base < c.group.order && r.commit < c.group.order && r.baseWeight < c.group.order && r.commitWeight < c.group.order
  {
    var s, t := baseSecret % c.group.order, commitSecret % c.group.order;
    var base, commit := PointMul(c.group, s), PointMul(c.group, t);
    Residues(s, t, Weight(c, base, commit), Weight(c, commit, base))
  }

  /** The helpers multiply by the residues themselves. */
  predicate NoneZero(r: Residues) {
    r.base != 0 && r.commit != 0 && r.baseWeight != 0 && r.commitWeight != 0
  }

  /** The private side's sum of products. */
  function KeySum(r: Residues): (m: nat) {
    r.baseWeight * r.base + r.commitWeight * r.commit
  }

  /** The point side's, where zero factors are replaced by one. */
  function PointSum(g: Group, r: Residues): (m: nat) {
    Normalise(g, r.baseWeight) * Normalise(g, r.base) + Normalise(g, r.commitWeight) * Normalise(g, r.commit)
  }

  lemma PrivkeySum(c: Signer, baseSecret: int, commitSecret: int)
    ensures RevocationPrivkey(c, baseSecret, commitSecret) == KeySum(ResiduesOf(c, baseSecret, commitSecret)) % c.group.order
  {
    hide Weight, PointMul;
  }

  /** The derived public key as a scalar. */
  lemma RevocationPoint(c: Signer, baseSecret: int, commitSecret: int)
    requires IsSigner(c)
    ensures var g, r := c.group, ResiduesOf(c, baseSecret, commitSecret);
      RevocationPubkey(c, PointMul(g, r.base), PointMul(g, r.commit)) == EncodePoint(g, PointSum(g, r) % g.order)
  {
    hide Weight, PointMul, ScalarMulPoint, ByteRange, Normalise;
    var g, n: int, r := c.group, c.group.order, ResiduesOf(c, baseSecret, commitSecret);
    DecodePointMul(g, r.base);
    DecodePointMul(g, r.commit);
    var s, t := Normalise(g, r.base), Normalise(g, r.commit);
    MultipliedPoint(g, r.baseWeight, PointMul(g, r.base));
    MultipliedPoint(g, r.commitWeight, PointMul(g, r.commit));
    var u, v := Normalise(g, r.baseWeight) * s, Normalise(g, r.commitWeight) * t;
    ModAddLeft(u, v % n, n);
    ModAddLeft(v, u, n);
  }

  lemma MultipliedPoint(g: Group, scalar: nat, p: bytes)
    requires IsGroup(g) && scalar < g.order && g.decode(p).Some?
    ensures ScalarMulPoint(g, scalar, p).Some?
    ensures g.decode(ScalarMulPoint(g, scalar, p).value) == Some((Normalise(g, scalar) * g.decode(p).value) % g.order)
  {
    SmallMod(scalar, g.order);
    var m := Normalise(g, scalar);
    SmallMod(m, g.order);
    DecodeScalarMul(g, m, p);
  }

  /** Replacing zero factors by one changes a product, modulo the order, exactly when there is a zero factor. */
  lemma ReplacedProduct(g: Group, a: nat, s: nat)
    requires IsGroup(g) && a < g.order && s < g.order
    ensures 0 <= Excess(g, a, s) < g.order
    ensures Excess(g, a, s) == 0 <==> a != 0 && s != 0
  {
    SmallMod(a, g.order);
    SmallMod(s, g.order);
    if a == 0 || s == 0 {
      assert a * s == 0;
      assert Normalise(g, a) == 1 || Normalise(g, s) == 1;
    }
  }

  /** Once the per-commitment secret is revealed, the derived private key opens the derived public key, exactly when it is
      not zero and no secret and no weight is a multiple of the order. */
  lemma RevocationKeysAgree(c: Signer, baseSecret: int, commitSecret: int)
    requires IsSigner(c)
    ensures var g, r := c.group, ResiduesOf(c, baseSecret, commitSecret);
      var key := RevocationPrivkey(c, baseSecret, commitSecret);
      var pubkey := RevocationPubkey(c, PointMul(g, r.base), PointMul(g, r.commit));
      && (key != 0 && pubkey == Some(PointMul(g, key)) <==> key != 0 && NoneZero(r))
      && (key == 0 && NoneZero(r) ==> pubkey == None)
  {
    hide Weight, PointMul, RevocationPubkey, RevocationPrivkey, ResiduesOf, ByteRange, Normalise, IsGroup, NoneZero, KeySum, PointSum;
    var g, r := c.group, ResiduesOf(c, baseSecret, commitSecret);
    RevocationPoint(c, baseSecret, commitSecret);
    PrivkeySum(c, baseSecret, commitSecret);
    SumsMatch(g, r);
    NormaliseSmall(g, KeySum(r) % g.order);
    EncodedEquals(g, PointSum(g, r) % g.order, KeySum(r) % g.order);
  }

  lemma ExcessIs(g: Group, a: nat, s: nat)
    requires a < g.order && s < g.order
    ensures Normalise(g, a) * Normalise(g, s) == a * s + Excess(g, a, s)
  {
  }

  lemma NormaliseSmall(g: Group, s: nat)
    requires 0 <= s < g.order
    ensures s != 0 ==> Normalise(g, s) == s
  {
    SmallMod(s, g.order);
  }

  /** The two sums agree modulo the order, unless the private one is zero, exactly when nothing was replaced. */
  lemma SumsMatch(g: Group, r: Residues)
    requires IsGroup(g) && r.base < g.order && r.commit < g.order && r.baseWeight < g.order && r.commitWeight < g.order
    ensures KeySum(r) % g.order != 0 ==> (PointSum(g, r) % g.order == KeySum(r) % g.order <==> NoneZero(r))
    ensures NoneZero(r) ==> PointSum(g, r) == KeySum(r)
  {
    hide Excess, IsGroup, KeySum, PointSum;
    var n, x, y := g.order, Excess(g, r.baseWeight, r.base), Excess(g, r.commitWeight, r.commit);
    ReplacedProduct(g, r.baseWeight, r.base);
    ReplacedProduct(g, r.commitWeight, r.commit);
    SumsDiffer(g, r);
    if x != 0 && y != 0 {
      BothVanish(r);
      SmallMod(0, n);
    } else if x + y != 0 {
      SameResidue(PointSum(g, r), KeySum(r), n);
      SmallMod(x + y, n);
    }
  }

  lemma SumsDiffer(g: Group, r: Residues)
    requires r.base < g.order && r.commit < g.order && r.baseWeight < g.order && r.commitWeight < g.order
    ensures PointSum(g, r) == KeySum(r) + Excess(g, r.baseWeight, r.base) + Excess(g, r.commitWeight, r.commit)
  {
    hide Excess, Normalise;
    ExcessIs(g, r.baseWeight, r.base);
    ExcessIs(g, r.commitWeight, r.commit);
  }

  lemma BothVanish(r: Residues)
    requires (r.baseWeight == 0 || r.base == 0) && (r.commitWeight == 0 || r.commit == 0)
    ensures KeySum(r) == 0
  {
  }

  /** A zero base secret is accepted on both sides, with non-zero weights, but gives different keys. */
  lemma ZeroSecretFails()
    ensures var c := UnitSigner();
      && ResiduesOf(c, 0, 1) == Residues(0, 1, 1, 1)
      && RevocationPrivkey(c, 0, 1) == 1
      && RevocationPubkey(c, PointMul(c.group, 0), PointMul(c.group, 1)) != Some(PointMul(c.group, 1))
  {
    hide FromBigEndian, ToBigEndian, IsGroup, PointMul, RevocationPubkey, ByteRange, SmallGroup;
    var c := UnitSigner();
    GroupExists();
    BigEndianRoundTrip(1, 32);
    RevocationKeysAgree(c, 0, 1);
  }
}
