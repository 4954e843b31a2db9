/** BIP 340 signatures and BIP 341 key tweaks (bitcoin/taproot.py). */
module Schnorr {
  import opened Bytes
  import opened Numbers
  import opened Curve

  /**
   * The curve as BIP 340 sees it. The point s * G is represented by the scalar s: `x` and `odd` are its
   * x-coordinate and the parity of its y-coordinate, and `lift` is `point_from_x`.
   */
  datatype XCurve = XCurve(order: Pos, field: nat, x: nat -> nat, odd: nat -> bool, lift: nat -> Option<nat>, sha256: bytes -> Digest)

  /** A point and its negation share their x-coordinate and differ in parity; lifting picks the even one. */
  ghost predicate IsXCurve(c: XCurve) {
    && c.order >= 2 && c.order <= ByteRange(32) && c.field <= ByteRange(32)
    && (forall s: nat :: 0 < s < c.order ==>
      c.x(c.order - s) == c.x(s) < c.field && c.odd(c.order - s) == !c.odd(s) && c.lift(c.x(s)) == Some(EvenScalar(c, s)))
    && (forall v :: c.lift(v).Some? ==>
      0 < c.lift(v).value < c.order && !c.odd(c.lift(v).value) && c.x(c.lift(v).value) == v)
  }

  /** Of s * G and its negation, the one with an even y-coordinate. */
  function EvenScalar(c: XCurve, s: nat): (e: nat)
    requires 0 < s < c.order
    ensures 0 < e < c.order
  {
    if c.odd(s) then c.order - s else s
  }

  function Ascii(s: string): (b: bytes)
    ensures |b| == |s|
  {
    seq(|s|, i requires 0 <= i < |s| => if s[i] as int < 128 then s[i] as byte else 0)
  }

  function TaggedHash(c: XCurve, tag: string, message: bytes): (d: Digest) {
    var t := c.sha256(Ascii(tag));
    c.sha256(t + t + message)
  }

  /** The bytes of `a` and `b` combined position by position, as long as both last. */
  function XorBytes(a: bytes, b: bytes): (r: bytes) {
    seq(if |a| <= |b| then |a| else |b|, i requires 0 <= i < |a| && i < |b| => Xor(a[i], b[i]))
  }

  function Challenge(c: XCurve, rx: bytes, px: bytes, message: bytes): (e: nat) {
    FromBigEndian(TaggedHash(c, "BIP0340/challenge", rx + px + message)) % c.order
  }

  function XBytes(c: XCurve, s: nat): (b: bytes)
    ensures |b| == 32
  {
    ToBigEndian(c.x(s), 32)
  }

  /** `schnorr_sign`: None stands for the two exceptions (zero key, zero nonce). */
  function Sign(c: XCurve, key: int, message: bytes, aux: bytes): (sig: Option<bytes>) {
    var d0 := key % c.order;
    if d0 == 0 then None
    else
      var d := EvenScalar(c, d0);
      var px := XBytes(c, d0);
      var t := XorBytes(ToBigEndian(d, 32), TaggedHash(c, "BIP0340/aux", aux));
      var k0 := FromBigEndian(TaggedHash(c, "BIP0340/nonce", t + px + message)) % c.order;
      if k0 == 0 then None
      else
        var k := EvenScalar(c, k0);
        var rx := XBytes(c, k0);
        var s := (k + Challenge(c, rx, px, message) * d) % c.order;
        Some(rx + ToBigEndian(s, 32))
  }

  /** R = s * G - e * P is a finite point with an even y-coordinate and x-coordinate r. */
  predicate NoncePoint(c: XCurve, p: nat, e: nat, s: nat, r: nat) {
    var point := (s - e * p) % c.order;
    point != 0 && !c.odd(point) && c.x(point) == r
  }

  /** `schnorr_verify`. */
  predicate Verify(c: XCurve, pubkey: bytes, message: bytes, sig: bytes) {
    var px := if |pubkey| == 33 then pubkey[1..33] else pubkey;
    if |sig| != 64 || |px| != 32 then false
    else
      var rx, r, s := sig[..32], FromBigEndian(sig[..32]), FromBigEndian(sig[32..]);
      if r >= c.field || s >= c.order then false
      else
        match c.lift(FromBigEndian(px))
        case None => false
        case Some(p) => NoncePoint(c, p, Challenge(c, rx, px, message), s, r)
  }

  lemma NoncePointExactly(c: XCurve, p: nat, e: nat, s: nat, r: nat)
    requires IsXCurve(c) && s < c.order
    ensures NoncePoint(c, p, e, s, r) <==> c.lift(r).Some? && s == (c.lift(r).value + e * p) % c.order
  {
    LiftedDifference(c, e * p, s, r);
  }

  lemma LiftedDifference(c: XCurve, m: int, s: nat, r: nat)
    requires IsXCurve(c) && s < c.order
    ensures var point := (s - m) % c.order;
      point != 0 && !c.odd(point) && c.x(point) == r <==> c.lift(r).Some? && s == (c.lift(r).value + m) % c.order
  {
    hide ByteRange;
    var n := c.order;
    var point := (s - m) % n;
    ModAddLeft(s - m, m, n);
    SmallMod(s, n);
    if c.lift(r).Some? {
      ModCancel(c.lift(r).value, m, n);
      SmallMod(c.lift(r).value, n);
    }
    if point != 0 && !c.odd(point) {
      LiftBack(c, point);
    }
  }

  lemma LiftBack(c: XCurve, point: nat)
    requires IsXCurve(c) && 0 < point < c.order && !c.odd(point)
    ensures c.lift(c.x(point)) == Some(point)
  {
    assert c.x(c.order - point) == c.x(point);
  }

  lemma XBytesRoundTrip(c: XCurve, s: nat)
    requires IsXCurve(c) && 0 < s < c.order
    ensures FromBigEndian(XBytes(c, s)) == c.x(s) < c.field
  {
    assert c.x(c.order - s) == c.x(s) < c.field;
    BigEndianRoundTrip(c.x(s), 32);
  }

  lemma EvenScalarProperties(c: XCurve, s: nat)
    requires IsXCurve(c) && 0 < s < c.order
    ensures !c.odd(EvenScalar(c, s)) && c.x(EvenScalar(c, s)) == c.x(s)
    ensures c.lift(c.x(s)) == Some(EvenScalar(c, s))
  {
    assert c.x(c.order - s) == c.x(s);
  }

  lemma Ranges(c: XCurve, r: nat)
    requires IsXCurve(c)
    ensures c.order <= ByteRange(32)
    ensures c.lift(r).Some? ==> r < c.field
  {
    if c.lift(r).Some? {
      assert c.x(c.order - c.lift(r).value) == c.x(c.lift(r).value) < c.field;
    }
  }

  lemma SplitSignature(rx: bytes, s: bytes)
    requires |rx| == 32
    ensures (rx + s)[..32] == rx && (rx + s)[32..] == s
  {
  }

  /** Verification accepts exactly s = k + e * p, where k * G and p * G are the points lifted from nonce and key. */
  lemma VerifyExactly(c: XCurve, px: bytes, message: bytes, rx: bytes, s: nat)
    requires IsXCurve(c) && |px| == 32 && |rx| == 32 && s < c.order
    ensures Verify(c, px, message, rx + ToBigEndian(s, 32)) <==>
      && c.lift(FromBigEndian(px)).Some?
      && c.lift(FromBigEndian(rx)).Some?
      && s == (c.lift(FromBigEndian(rx)).value + Challenge(c, rx, px, message) * c.lift(FromBigEndian(px)).value) % c.order
  {
    hide Challenge, ToBigEndian, FromBigEndian, IsXCurve, NoncePoint, ByteRange;
    SplitSignature(rx, ToBigEndian(s, 32));
    Ranges(c, FromBigEndian(rx));
    BigEndianRoundTrip(s, 32);
    if c.lift(FromBigEndian(px)).Some? {
      NoncePointExactly(c, c.lift(FromBigEndian(px)).value, Challenge(c, rx, px, message), s, FromBigEndian(rx));
    }
  }

  /** Verification of any key, message and signature, down to the bytes that are hashed: 64 bytes r and s, a 32-byte key or
      one of 33 whose first byte is dropped, s below the order, both coordinates on the curve, and s = k + e * p, where e hashes
      tag, r, key and message. */
  lemma VerifiesWhen(c: XCurve, pubkey: bytes, message: bytes, sig: bytes)
    requires IsXCurve(c)
    ensures var tag := c.sha256(Ascii("BIP0340/challenge"));
      Verify(c, pubkey, message, sig) <==>
      && |sig| == 64 && (|pubkey| == 32 || |pubkey| == 33)
      && var px := if |pubkey| == 33 then pubkey[1..33] else pubkey;
      var k, p, s := c.lift(FromBigEndian(sig[..32])), c.lift(FromBigEndian(px)), FromBigEndian(sig[32..]);
      && s < c.order && k.Some? && p.Some?
      && s == (k.value + FromBigEndian(c.sha256(tag + tag + sig[..32] + px + message)) * p.value) % c.order
  {
    hide FromBigEndian, ToBigEndian, IsXCurve, NoncePoint, Verify;
    if |sig| == 64 && (|pubkey| == 32 || |pubkey| == 33) && FromBigEndian(sig[32..]) < c.order {
      var px := if |pubkey| == 33 then pubkey[1..33] else pubkey;
      VerifiesSplit(c, pubkey, message, sig);
      ChallengeWritten(c, sig[..32], px, message);
      var p := c.lift(FromBigEndian(px));
      if p.Some? {
        ReducedFactor(FromBigEndian(ChallengeDigest(c, sig[..32], px, message)), p.value, c.order);
        if c.lift(FromBigEndian(sig[..32])).Some? {
          ReducedTerm(c.lift(FromBigEndian(sig[..32])).value, FromBigEndian(ChallengeDigest(c, sig[..32], px, message)), p.value, c.order);
        }
      }
    } else {
      RefusesForm(c, pubkey, message, sig);
    }
  }

  /** The digest behind a challenge. */
  function ChallengeDigest(c: XCurve, rx: bytes, px: bytes, message: bytes): (d: Digest) {
    var tag := c.sha256(Ascii("BIP0340/challenge"));
    c.sha256(tag + tag + rx + px + message)
  }

  lemma ChallengeWritten(c: XCurve, rx: bytes, px: bytes, message: bytes)
    ensures Challenge(c, rx, px, message) == FromBigEndian(ChallengeDigest(c, rx, px, message)) % c.order
  {
    var tag := c.sha256(Ascii("BIP0340/challenge"));
    assert tag + tag + (rx + px + message) == tag + tag + rx + px + message;
  }

  lemma ReducedFactor(e: nat, p: nat, n: int)
    requires n > 0
    ensures ((e % n) * p) % n == (e * p) % n
  {
    ModMulLeft(e, p, n);
  }

  lemma ReducedTerm(k: nat, e: nat, p: nat, n: int)
    requires n > 0
    ensures (k + (e % n) * p) % n == (k + e * p) % n
  {
    ModMulLeft(e, p, n);
    ModAddLeft((e % n) * p, k, n);
    ModAddLeft(e * p, k, n);
  }

  lemma VerifiesSplit(c: XCurve, pubkey: bytes, message: bytes, sig: bytes)
    requires IsXCurve(c) && |sig| == 64 && (|pubkey| == 32 || |pubkey| == 33) && FromBigEndian(sig[32..]) < c.order
    ensures var px := if |pubkey| == 33 then pubkey[1..33] else pubkey;
      var k, p := c.lift(FromBigEndian(sig[..32])), c.lift(FromBigEndian(px));
      Verify(c, pubkey, message, sig) <==>
      k.Some? && p.Some? && FromBigEndian(sig[32..]) == (k.value + Challenge(c, sig[..32], px, message) * p.value) % c.order
  {
    hide Challenge, ToBigEndian, FromBigEndian, IsXCurve, Verify, ByteRange;
    var px := if |pubkey| == 33 then pubkey[1..33] else pubkey;
    BigEndianUnique(sig[32..]);
    assert sig == sig[..32] + sig[32..];
    if |pubkey| == 33 {
      KeyForm(c, pubkey, message, sig);
    }
    VerifyExactly(c, px, message, sig[..32], FromBigEndian(sig[32..]));
  }

  lemma KeyForm(c: XCurve, pubkey: bytes, message: bytes, sig: bytes)
    requires |pubkey| == 33
    ensures Verify(c, pubkey, message, sig) == Verify(c, pubkey[1..33], message, sig)
  {
    hide Challenge, FromBigEndian;
  }

  lemma RefusesForm(c: XCurve, pubkey: bytes, message: bytes, sig: bytes)
    requires |sig| != 64 || (|pubkey| != 32 && |pubkey| != 33) || FromBigEndian(sig[32..]) >= c.order
    ensures !Verify(c, pubkey, message, sig)
  {
    hide Challenge, FromBigEndian;
  }

  lemma SameTerm(k: int, x: int, y: int, n: int)
    requires n > 0 && (k + x) % n == (k + y) % n
    ensures x % n == y % n
  {
    ModCancel(x, k, n);
    ModCancel(y, k, n);
  }

  /** A signature that is valid for two messages forces their challenges, as multiples of the key, to agree. */
  lemma MessageBound(c: XCurve, pubkey: bytes, m1: bytes, m2: bytes, sig: bytes)
    requires IsXCurve(c) && Verify(c, pubkey, m1, sig) && Verify(c, pubkey, m2, sig)
    ensures |sig| == 64 && (|pubkey| == 32 || |pubkey| == 33)
    ensures var px := if |pubkey| == 33 then pubkey[1..33] else pubkey;
      var tag, p := c.sha256(Ascii("BIP0340/challenge")), c.lift(FromBigEndian(px));
      && p.Some?
      && (FromBigEndian(c.sha256(tag + tag + sig[..32] + px + m1)) * p.value) % c.order ==
         (FromBigEndian(c.sha256(tag + tag + sig[..32] + px + m2)) * p.value) % c.order
  {
    hide Verify, FromBigEndian, IsXCurve, ByteRange, Ascii;
    VerifiesWhen(c, pubkey, m1, sig);
    VerifiesWhen(c, pubkey, m2, sig);
    OrderPositive(c);
    var px := if |pubkey| == 33 then pubkey[1..33] else pubkey;
    var k, p := c.lift(FromBigEndian(sig[..32])).value, c.lift(FromBigEndian(px)).value;
    var e1, e2 := FromBigEndian(ChallengeDigest(c, sig[..32], px, m1)), FromBigEndian(ChallengeDigest(c, sig[..32], px, m2));
    SameTerm(k, e1 * p, e2 * p, c.order);
  }

  lemma OrderPositive(c: XCurve)
    requires IsXCurve(c)
    ensures c.order >= 2
  {
  }

  /** The tags are hashed as ASCII. */
  lemma AsciiCodes(s: string, i: nat)
    requires i < |s| && s[i] as int < 128
    ensures Ascii(s)[i] as int == s[i] as int
  {
  }

  lemma ZeroKeyRefused(c: XCurve, key: int, message: bytes, aux: bytes)
    requires key % c.order == 0
    ensures Sign(c, key, message, aux) == None
  {
  }

  /** What a signature is made of: the x-coordinate of the nonce, which hashes the masked even secret key, the public key and
      the message; and the scalar k + e * d, both made even. */
  lemma SignedFrom(c: XCurve, key: int, message: bytes, aux: bytes)
    requires key % c.order != 0
    ensures var n: int, d0: nat := c.order, key % c.order;
      var d := if c.odd(d0) then n - d0 else d0;
      var px := ToBigEndian(c.x(d0), 32);
      var auxTag, nonceTag, tag := c.sha256(Ascii("BIP0340/aux")), c.sha256(Ascii("BIP0340/nonce")), c.sha256(Ascii("BIP0340/challenge"));
      var masked := XorBytes(ToBigEndian(d, 32), c.sha256(auxTag + auxTag + aux));
      var k0: nat := FromBigEndian(c.sha256(nonceTag + nonceTag + masked + px + message)) % n;
      Sign(c, key, message, aux) ==
        if k0 == 0 then None
        else
          var k, rx := if c.odd(k0) then n - k0 else k0, ToBigEndian(c.x(k0), 32);
          Some(rx + ToBigEndian(((k + (FromBigEndian(c.sha256(tag + tag + rx + px + message)) % n) * d) % n) as nat, 32))
  {
    hide FromBigEndian, ToBigEndian, XorBytes;
    var d0: nat := key % c.order;
    var d := if c.odd(d0) then c.order - d0 else d0;
    var px := ToBigEndian(c.x(d0), 32);
    var auxTag, nonceTag := c.sha256(Ascii("BIP0340/aux")), c.sha256(Ascii("BIP0340/nonce"));
    var masked := XorBytes(ToBigEndian(d, 32), c.sha256(auxTag + auxTag + aux));
    assert nonceTag + nonceTag + (masked + px + message) == nonceTag + nonceTag + masked + px + message;
    var k0: nat := FromBigEndian(c.sha256(nonceTag + nonceTag + masked + px + message)) % c.order;
    ChallengeWritten(c, ToBigEndian(c.x(k0), 32), px, message);
  }

  /** Where two strings both last, the masked key is their exclusive or, byte by byte. */
  lemma XorBytesAt(a: bytes, b: bytes, i: nat)
    requires i < |a| && i < |b|
    ensures |XorBytes(a, b)| == (if |a| <= |b| then |a| else |b|) && XorBytes(a, b)[i] == Xor(a[i], b[i])
  {
  }

  /** A signature verifies against the signer's x-only key, whatever the parities of key and nonce. */
  lemma SignedVerifies(c: XCurve, key: int, message: bytes, aux: bytes)
    requires IsXCurve(c) && Sign(c, key, message, aux).Some?
    ensures Verify(c, XBytes(c, key % c.order), message, Sign(c, key, message, aux).value)
  {
    hide TaggedHash, Challenge, XorBytes, ToBigEndian, FromBigEndian, IsXCurve, Verify, EvenScalar;
    var d0 := key % c.order;
    var d, px := EvenScalar(c, d0), XBytes(c, d0);
    var t := XorBytes(ToBigEndian(d, 32), TaggedHash(c, "BIP0340/aux", aux));
    var k0 := FromBigEndian(TaggedHash(c, "BIP0340/nonce", t + px + message)) % c.order;
    var k, rx := EvenScalar(c, k0), XBytes(c, k0);
    var s := (k + Challenge(c, rx, px, message) * d) % c.order;
    EvenScalarProperties(c, d0);
    EvenScalarProperties(c, k0);
    XBytesRoundTrip(c, d0);
    XBytesRoundTrip(c, k0);
    VerifyExactly(c, px, message, rx, s);
  }

  /** For one nonce coordinate, key and message there is at most one valid signature. */
  lemma SignatureUnique(c: XCurve, px: bytes, message: bytes, rx: bytes, s1: nat, s2: nat)
    requires IsXCurve(c) && |px| == 32 && |rx| == 32 && s1 < c.order && s2 < c.order
    requires Verify(c, px, message, rx + ToBigEndian(s1, 32))
    requires Verify(c, px, message, rx + ToBigEndian(s2, 32))
    ensures s1 == s2
  {
    hide Verify, Challenge, ToBigEndian, FromBigEndian;
    VerifyExactly(c, px, message, rx, s1);
    VerifyExactly(c, px, message, rx, s2);
  }

  // ----- Taproot tweaks

  /** `pubkey_to_x_only`, without the parity flag: None stands for the ValueError. */
  function XOnly(pubkey: bytes): (px: Option<bytes>) {
    if |pubkey| == 32 then Some(pubkey) else if |pubkey| == 33 then Some(pubkey[1..33]) else None
  }

  function TweakScalar(c: XCurve, px: bytes, root: bytes): (t: nat) {
    FromBigEndian(TaggedHash(c, "TapTweak", px + root)) % c.order
  }

  /** `taproot_tweak_pubkey`: output key and parity; None stands for an exception. */
  function TweakPubkey(c: XCurve, internal: bytes, root: bytes): (q: Option<(bytes, bool)>) {
    match XOnly(internal)
    case None => None
    case Some(px) =>
      match c.lift(FromBigEndian(px))
      case None => None
      case Some(p) =>
        var q := (p + TweakScalar(c, px, root)) % c.order;
        if q == 0 then None else Some((XBytes(c, q), c.odd(q)))
  }

  /** `taproot_tweak_seckey`: None stands for an exception (the zero key has no y-coordinate). */
  function TweakSeckey(c: XCurve, key: int, root: bytes): (q: Option<nat>) {
    var d0 := key % c.order;
    if d0 == 0 then None
    else Some((EvenScalar(c, d0) + TweakScalar(c, XBytes(c, d0), root)) % c.order)
  }

  /** The tweaked secret key is the discrete logarithm of the tweaked output key, and fails with it. */
  lemma TweaksAgree(c: XCurve, key: int, root: bytes)
    requires IsXCurve(c) && key % c.order != 0
    ensures var q := TweakSeckey(c, key, root);
      q.Some? && TweakPubkey(c, XBytes(c, key % c.order), root) ==
        if q.value == 0 then None else Some((XBytes(c, q.value), c.odd(q.value)))
  {
    hide TweakScalar, FromBigEndian, ToBigEndian;
    var d0 := key % c.order;
    EvenScalarProperties(c, d0);
    XBytesRoundTrip(c, d0);
  }

  /** Both tweaks add the hash of the tag, the internal x-only key and the root. */
  lemma TweakWritten(c: XCurve, key: int, root: bytes)
    requires IsXCurve(c) && key % c.order != 0
    ensures var n: int, d0: nat := c.order, key % c.order;
      var px, tag := ToBigEndian(c.x(d0), 32), c.sha256(Ascii("TapTweak"));
      var q: nat := ((if c.odd(d0) then n - d0 else d0) + FromBigEndian(c.sha256(tag + tag + px + root)) % n) % n;
      && TweakSeckey(c, key, root) == Some(q)
      && TweakPubkey(c, px, root) == if q == 0 then None else Some((ToBigEndian(c.x(q), 32), c.odd(q)))
  {
    hide FromBigEndian, ToBigEndian, IsXCurve;
    var d0: nat := key % c.order;
    var px, tag := XBytes(c, d0), c.sha256(Ascii("TapTweak"));
    assert tag + tag + (px + root) == tag + tag + px + root;
    TweaksAgree(c, key, root);
  }

  /** Signing with the tweaked secret key verifies against the tweaked output key, through every parity case. */
  lemma TweakedSignatureVerifies(c: XCurve, key: int, root: bytes, message: bytes, aux: bytes)
    requires IsXCurve(c) && key % c.order != 0
    requires TweakPubkey(c, XBytes(c, key % c.order), root).Some?
    requires Sign(c, TweakSeckey(c, key, root).value, message, aux).Some?
    ensures Verify(c, TweakPubkey(c, XBytes(c, key % c.order), root).value.0, message,
                   Sign(c, TweakSeckey(c, key, root).value, message, aux).value)
  {
    TweaksAgree(c, key, root);
    var q := TweakSeckey(c, key, root).value;
    SmallMod(q, c.order);
    SignedVerifies(c, q, message, aux);
  }

  /** Such curves exist: here with the three multiples of a point G, where -G is the odd one. */
  lemma XCurveExists(sha256: bytes -> Digest) returns (c: XCurve)
    ensures IsXCurve(c) && c.sha256 == sha256
  {
    hide ByteRange;
    RangeGrows(32);
    c := XCurve(3, 1, (s: nat) => 0, (s: nat) => s == 2, (v: nat) => if v == 0 then Some(1) else None, sha256);
  }
}
