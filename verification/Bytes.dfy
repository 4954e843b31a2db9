/** Byte strings and the conventional option type shared by the other modules. */
module Bytes {
  import opened Numbers

  newtype byte = x: int | 0 <= x < 256

  type bytes = seq<byte>

  /** A SHA-256 or HMAC-SHA-256 output. */
  type Digest = d: bytes | |d| == 32 witness seq(32, _ => 0)

  datatype Option<+T> = None | Some(value: T)

  function Zeros(n: nat): (z: bytes)
    ensures |z| == n
  {
    seq(n, _ => 0)
  }

  // ----- exclusive or, bit by bit

  function XorBits(a: nat, b: nat, width: nat): (r: nat) {
    if width == 0 then 0
    else (if a % 2 == b % 2 then 0 else 1) + 2 * XorBits(a / 2, b / 2, width - 1)
  }

  lemma {:induction false} XorBitsBound(a: nat, b: nat, width: nat, limit: nat)
    requires limit == Pow2(width)
    ensures XorBits(a, b, width) < limit
  {
    if width > 0 {
      XorBitsBound(a / 2, b / 2, width - 1, Pow2(width - 1));
    }
  }

  /** One bit of exclusive or on top of the rest. */
  lemma XorBitsStep(a: nat, b: nat, width: nat)
    requires width > 0
    ensures XorBits(a, b, width) % 2 == if a % 2 == b % 2 then 0 else 1
    ensures XorBits(a, b, width) / 2 == XorBits(a / 2, b / 2, width - 1)
  {
  }

  /** Exclusive or with the same operand twice restores the value. */
  lemma {:induction false} XorBitsCancel(a: nat, b: nat, width: nat)
    requires a < Pow2(width)
    ensures XorBits(XorBits(a, b, width), b, width) == a
  {
    if width > 0 {
      var x := XorBits(a, b, width);
      XorBitsStep(a, b, width);
      XorBitsStep(x, b, width);
      XorBitsCancel(a / 2, b / 2, width - 1);
      var y := XorBits(x, b, width);
      assert y % 2 == a % 2 && y / 2 == a / 2;
    }
  }

  /** Every bit of the exclusive or says whether the operands differ there. */
  lemma {:induction false} XorBitsBit(a: nat, b: nat, width: nat, k: nat)
    requires k < width
    ensures Bit(XorBits(a, b, width), k) <==> Bit(a, k) != Bit(b, k)
  {
    XorBitsStep(a, b, width);
    if k > 0 {
      XorBitsBit(a / 2, b / 2, width - 1, k - 1);
    }
  }

  function Xor(a: byte, b: byte): (r: byte) {
    assert Pow2(8) == 256;
    XorBitsBound(a as nat, b as nat, 8, 256);
    XorBits(a as nat, b as nat, 8) as byte
  }

  lemma XorCancel(a: byte, b: byte)
    ensures Xor(Xor(a, b), b) == a
  {
    assert Pow2(8) == 256;
    XorBitsCancel(a as nat, b as nat, 8);
  }

  /** Bit by bit, exclusive or tells where two bytes differ. */
  lemma XorBitwise(a: byte, b: byte, k: nat)
    requires k < 8
    ensures Bit(Xor(a, b) as nat, k) <==> Bit(a as nat, k) != Bit(b as nat, k)
  {
    XorBitsBit(a as nat, b as nat, 8, k);
  }

  lemma {:induction false} XorBitsZero(b: nat, width: nat)
    requires b < Pow2(width)
    ensures XorBits(0, b, width) == b
  {
    if width > 0 {
      XorBitsZero(b / 2, width - 1);
    }
  }

  lemma XorZero(b: byte)
    ensures Xor(0, b) == b
  {
    assert Pow2(8) == 256;
    XorBitsZero(b as nat, 8);
  }

  // ----- big-endian integers

  /** `int.to_bytes(width, "big")` for a value that fits. */
  function ToBigEndian(value: nat, width: nat): (b: bytes)
    ensures |b| == width
  {
    if width == 0 then [] else ToBigEndian(value / 256, width - 1) + [(value % 256) as byte]
  }

  /** `int.from_bytes(b, "big")`. */
  function FromBigEndian(b: bytes): (value: nat) {
    if b == [] then 0 else FromBigEndian(b[..|b| - 1]) * 256 + b[|b| - 1] as nat
  }

  /** The number of values that `width` bytes can hold. */
  function ByteRange(width: nat): (r: nat)
    ensures r >= 1
  {
    if width == 0 then 1 else 256 * ByteRange(width - 1)
  }

  /** The most significant byte comes first. */
  lemma {:induction false} LeadingByte(first: byte, rest: bytes)
    ensures FromBigEndian([first] + rest) == first as nat * ByteRange(|rest|) + FromBigEndian(rest)
  {
    var b := [first] + rest;
    if rest == [] {
      assert b[..0] == [];
    } else {
      var n := |rest|;
      assert b[..n] == [first] + rest[..n - 1];
      LeadingByte(first, rest[..n - 1]);
      Regroup(first as nat, ByteRange(n - 1));
    }
  }

  lemma Regroup(a: nat, r: nat)
    ensures a * r * 256 == a * (256 * r)
  {
  }

  /** An integer that fits is written as the one byte string of that width that reads as it. */
  lemma {:induction false} BigEndianUnique(b: bytes)
    ensures FromBigEndian(b) < ByteRange(|b|)
    ensures ToBigEndian(FromBigEndian(b), |b|) == b
  {
    if b != [] {
      BigEndianUnique(b[..|b| - 1]);
    }
  }

  lemma {:induction false} BigEndianRoundTrip(value: nat, width: nat)
    requires value < ByteRange(width)
    ensures FromBigEndian(ToBigEndian(value, width)) == value
  {
    if width > 0 {
      BigEndianRoundTrip(value / 256, width - 1);
      var b := ToBigEndian(value, width);
      assert b[..width - 1] == ToBigEndian(value / 256, width - 1);
    }
  }
}
