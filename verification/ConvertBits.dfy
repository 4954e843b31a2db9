/** Regrouping of bit strings (bitcoin/taproot.py, _convertbits). */
module ConvertBits {
  import opened Bytes
  import opened Numbers

  type Bits = seq<bool>

  // ----- numbers as bit strings, most significant bit first

  function BitsOf(v: nat, w: nat): (b: Bits)
    ensures |b| == w
  {
    if w == 0 then [] else BitsOf(v / 2, w - 1) + [v % 2 == 1]
  }

  function Value(b: Bits): (v: nat) {
    if b == [] then 0 else 2 * Value(b[..|b| - 1]) + (if b[|b| - 1] then 1 else 0)
  }

  lemma {:induction false} BitsOfValue(b: Bits)
    ensures BitsOf(Value(b), |b|) == b
    ensures Value(b) < Pow2(|b|)
  {
    if b != [] {
      BitsOfValue(b[..|b| - 1]);
    }
  }

  lemma {:induction false} ValueOfBits(v: nat, w: nat)
    requires v < Pow2(w)
    ensures Value(BitsOf(v, w)) == v
  {
    if w > 0 {
      ValueOfBits(v / 2, w - 1);
      assert BitsOf(v, w)[..w - 1] == BitsOf(v / 2, w - 1);
    }
  }

  function Falses(n: nat): (b: Bits)
    ensures |b| == n
  {
    seq(n, _ => false)
  }

  /** The concatenated bits of a sequence of `w`-bit values. */
  function AllBits(data: seq<nat>, w: nat): (b: Bits) {
    if data == [] then [] else BitsOf(data[0], w) + AllBits(data[1..], w)
  }

  // ----- the reference: cut the bit string into chunks

  datatype Cut = Cut(chunks: seq<nat>, rest: Bits)

  /** Consecutive chunks of `w` bits, and what is left over. */
  function CutInto(b: Bits, w: nat): (c: Cut)
    requires w > 0
    ensures |c.rest| < w
  {
    if |b| < w then Cut([], b)
    else
      var tail := CutInto(b[w..], w);
      Cut([Value(b[..w])] + tail.chunks, tail.rest)
  }

  predicate InRange(data: seq<int>, w: nat) {
    forall i :: 0 <= i < |data| ==> 0 <= data[i] < Pow2(w)
  }

  /** The chunks with the remainder, if any, filled up with zeros. */
  function FillLast(c: Cut, w: nat): (chunks: seq<nat>)
    requires |c.rest| < w
  {
    if c.rest == [] then c.chunks else c.chunks + [Value(c.rest + Falses(w - |c.rest|))]
  }

  /** What regrouping means: None for an out-of-range value, or without padding for a long or non-zero remainder. */
  ghost function Regrouped(data: seq<int>, from: nat, to: nat, pad: bool): (r: Option<seq<nat>>)
    requires to > 0
  {
    if !InRange(data, from) then None
    else
      var c := CutInto(AllBits(Naturals(data), from), to);
      if pad then Some(FillLast(c, to))
      else if |c.rest| >= from || c.rest != Falses(|c.rest|) then None
      else Some(c.chunks)
  }

  function Naturals(data: seq<int>): (n: seq<nat>)
    requires forall i :: 0 <= i < |data| ==> 0 <= data[i]
    ensures |n| == |data| && forall i :: 0 <= i < |data| ==> n[i] == data[i]
  {
    seq(|data|, i requires 0 <= i < |data| => data[i])
  }

  lemma PrependChunk(v: nat, s: seq<nat>, t: seq<nat>)
    ensures [v] + (s + t) == ([v] + s) + t
  {
  }

  lemma {:induction false} CutAppend(a: Bits, b: Bits, w: nat)
    requires w > 0
    ensures CutInto(a + b, w) ==
      Cut(CutInto(a, w).chunks + CutInto(CutInto(a, w).rest + b, w).chunks, CutInto(CutInto(a, w).rest + b, w).rest)
  {
    hide Value;
    if |a| >= w {
      var sum := a + b;
      assert sum[..w] == a[..w] && sum[w..] == a[w..] + b;
      CutAppend(a[w..], b, w);
      PrependChunk(Value(a[..w]), CutInto(a[w..], w).chunks, CutInto(CutInto(a, w).rest + b, w).chunks);
    }
  }

  lemma Reassemble(b: Bits, w: nat, middle: Bits, rest: Bits)
    requires w <= |b| && middle + rest == b[w..]
    ensures b[..w] + middle + rest == b
  {
    assert b[..w] + (middle + rest) == b;
  }

  /** Cutting loses nothing. */
  lemma {:induction false} CutCovers(b: Bits, w: nat)
    requires w > 0
    ensures AllBits(CutInto(b, w).chunks, w) + CutInto(b, w).rest == b
    ensures forall i :: 0 <= i < |CutInto(b, w).chunks| ==> CutInto(b, w).chunks[i] < Pow2(w)
  {
    if |b| >= w {
      CutCovers(b[w..], w);
      BitsOfValue(b[..w]);
      var c, tail := CutInto(b, w), CutInto(b[w..], w);
      assert c.chunks[1..] == tail.chunks;
      Reassemble(b, w, AllBits(tail.chunks, w), tail.rest);
    }
  }

  /** Cutting the bits of `w`-bit values into chunks of `w` gives the values back, with any short tail left over. */
  lemma {:induction false} CutOwnBits(data: seq<nat>, w: nat, tail: Bits)
    requires |tail| < w && forall i :: 0 <= i < |data| ==> data[i] < Pow2(w)
    ensures CutInto(AllBits(data, w) + tail, w) == Cut(data, tail)
  {
    hide BitsOf, Value, Pow2;
    if data == [] {
      assert AllBits(data, w) + tail == tail;
    } else {
      FirstChunk(BitsOf(data[0], w), AllBits(data[1..], w), tail);
      ValueOfBits(data[0], w);
      CutOwnBits(data[1..], w, tail);
      assert [data[0]] + data[1..] == data;
    }
  }

  lemma FirstChunk(first: Bits, rest: Bits, tail: Bits)
    ensures ((first + rest) + tail)[..|first|] == first
    ensures ((first + rest) + tail)[|first|..] == rest + tail
  {
  }

  lemma {:induction false} AllBitsAppend(a: seq<nat>, b: seq<nat>, w: nat)
    ensures AllBits(a + b, w) == AllBits(a, w) + AllBits(b, w)
  {
    if a == [] {
      assert a + b == b;
    } else {
      assert (a + b)[1..] == a[1..] + b;
      AllBitsAppend(a[1..], b, w);
    }
  }

  // ----- the accumulator

  /** `(acc << w) | value` for a value below 2^w. */
  function Push(acc: nat, value: nat, w: nat): (r: nat) {
    if w == 0 then acc else 2 * Push(acc, value / 2, w - 1) + value % 2
  }

  /** `acc & ((1 << k) - 1)`. */
  function LowBits(acc: nat, k: nat): (r: nat)
    ensures r < Pow2(k)
  {
    if k == 0 then 0 else 2 * LowBits(acc / 2, k - 1) + acc % 2
  }

  lemma {:induction false} PushBits(acc: nat, value: nat, w: nat, n: nat)
    ensures BitsOf(Push(acc, value, w), n + w) == BitsOf(acc, n) + BitsOf(value, w)
  {
    if w > 0 {
      PushBits(acc, value / 2, w - 1, n);
      var r := Push(acc, value, w);
      assert r / 2 == Push(acc, value / 2, w - 1) && r % 2 == value % 2;
      assert BitsOf(r, n + w) == BitsOf(r / 2, n + w - 1) + [r % 2 == 1];
    }
  }

  /** Masking above the bits in use changes none of them. */
  lemma {:induction false} MaskBits(acc: nat, k: nat, n: nat)
    requires n <= k
    ensures BitsOf(LowBits(acc, k), n) == BitsOf(acc, n)
  {
    if n > 0 {
      MaskBits(acc / 2, k - 1, n - 1);
      var r := LowBits(acc, k);
      assert r / 2 == LowBits(acc / 2, k - 1) && r % 2 == acc % 2;
    }
  }

  /** `(acc >> n)` holds the bits above the low `n`. */
  lemma {:induction false} SplitBits(acc: nat, n: nat, w: nat)
    ensures BitsOf(acc, n + w) == BitsOf(ShiftRight(acc, n), w) + BitsOf(acc, n)
  {
    if n > 0 {
      SplitBits(acc / 2, n - 1, w);
      assert BitsOf(acc, n + w) == BitsOf(acc / 2, n - 1 + w) + [acc % 2 == 1];
    }
  }

  lemma ChunkValue(v: nat, w: nat, b: Bits)
    requires BitsOf(v, w) == b
    ensures LowBits(v, w) == Value(b)
  {
    MaskBits(v, w, w);
    ValueOfBits(LowBits(v, w), w);
  }

  lemma {:induction false} FalsesZero(b: Bits)
    ensures Value(b) == 0 <==> b == Falses(|b|)
  {
    if b != [] {
      var init := b[..|b| - 1];
      FalsesZero(init);
      assert b == init + [b[|b| - 1]];
      assert Falses(|b|) == Falses(|init|) + [false];
    }
  }

  lemma {:induction false} PushZeros(w: nat)
    ensures BitsOf(0, w) == Falses(w)
  {
    if w > 0 {
      PushZeros(w - 1);
      assert Falses(w) == Falses(w - 1) + [false];
    }
  }

  /** What the inner loop does: emit whole chunks while at least `to` bits are pending. */
  method EmitChunks(acc: nat, pending: nat, to: nat, ret: seq<nat>) returns (out: seq<nat>, bits: nat)
    requires to > 0
    ensures out == ret + CutInto(BitsOf(acc, pending), to).chunks
    ensures bits < to && BitsOf(acc, bits) == CutInto(BitsOf(acc, pending), to).rest
  {
    out, bits := ret, pending;
    while bits >= to
      invariant out + CutInto(BitsOf(acc, bits), to).chunks == ret + CutInto(BitsOf(acc, pending), to).chunks
      invariant CutInto(BitsOf(acc, bits), to).rest == CutInto(BitsOf(acc, pending), to).rest
    {
      ghost var before := BitsOf(acc, bits);
      bits := bits - to;
      SplitBits(acc, bits, to);
      assert before[..to] == BitsOf(ShiftRight(acc, bits), to) && before[to..] == BitsOf(acc, bits);
      ChunkValue(ShiftRight(acc, bits), to, before[..to]);
      ghost var chunks := CutInto(BitsOf(acc, bits), to).chunks;
      assert CutInto(before, to).chunks == [Value(before[..to])] + chunks;
      assert out + ([Value(before[..to])] + chunks) == (out + [Value(before[..to])]) + chunks;
      out := out + [LowBits(ShiftRight(acc, bits), to)];
    }
    assert out + [] == out;
  }

  /** The state of the outer loop after a prefix of the data. */
  ghost predicate Consumed(data: seq<int>, from: nat, to: nat, ret: seq<nat>, acc: nat, bits: nat) {
    && 0 < to && bits < to && InRange(data, from)
    && CutInto(AllBits(Naturals(data), from), to) == Cut(ret, BitsOf(acc, bits))
  }

  /** `_convertbits`. */
  method ConvertBits(data: seq<int>, from: nat, to: nat, pad: bool) returns (r: Option<seq<nat>>)
    requires from > 0 && to > 0
    ensures r == Regrouped(data, from, to, pad)
  {
    hide BitsOf, AllBits, CutInto, Push, LowBits, Value, Falses, Naturals;
    var acc: nat, bits: nat := 0, 0;
    var ret: seq<nat> := [];
    StartConsumed(from, to);
    assert data[..0] == [];
    for i := 0 to |data|
      invariant Consumed(data[..i], from, to, ret, acc, bits)
    {
      var value := data[i];
      if value < 0 || value >= Pow2(from) {
        return None;
      }
      var pushed := Push(acc, value, from);
      PushBits(acc, value, from, bits);
      MaskBits(pushed, from + to - 1, bits + from);
      StepBits(data, i, from, to, ret, BitsOf(acc, bits));
      acc := LowBits(pushed, from + to - 1);
      ret, bits := EmitChunks(acc, bits + from, to, ret);
    }
    assert data[..|data|] == data;
    PadBits(acc, bits, to);
    if pad {
      if bits > 0 {
        ret := ret + [LowBits(Push(acc, 0, to - bits), to)];
      }
    } else if bits >= from || LowBits(Push(acc, 0, to - bits), to) != 0 {
      return None;
    }
    return Some(ret);
  }

  lemma StartConsumed(from: nat, to: nat)
    requires to > 0
    ensures Consumed([], from, to, [], 0, 0)
  {
  }

  /** Adding one more value appends its bits to what was pending. */
  lemma StepBits(data: seq<int>, i: nat, from: nat, to: nat, ret: seq<nat>, rest: Bits)
    requires i < |data| && to > 0 && InRange(data[..i], from) && 0 <= data[i] < Pow2(from)
    requires CutInto(AllBits(Naturals(data[..i]), from), to) == Cut(ret, rest)
    ensures InRange(data[..i + 1], from)
    ensures CutInto(AllBits(Naturals(data[..i + 1]), from), to) ==
      Cut(ret + CutInto(rest + BitsOf(data[i], from), to).chunks, CutInto(rest + BitsOf(data[i], from), to).rest)
  {
    assert data[..i + 1] == data[..i] + [data[i]];
    var before, v: nat := Naturals(data[..i]), data[i];
    assert Naturals(data[..i + 1]) == before + [v];
    AllBitsAppend(before, [v], from);
    assert AllBits([v], from) == BitsOf(v, from) + AllBits([], from) == BitsOf(v, from);
    CutAppend(AllBits(before, from), BitsOf(v, from), to);
  }

  /** `(acc << (to - bits)) & maxv` is the pending bits followed by zeros. */
  lemma PadBits(acc: nat, bits: nat, to: nat)
    requires bits < to
    ensures LowBits(Push(acc, 0, to - bits), to) == Value(BitsOf(acc, bits) + Falses(to - bits))
    ensures Value(BitsOf(acc, bits) + Falses(to - bits)) == 0 <==> BitsOf(acc, bits) == Falses(bits)
  {
    PushBits(acc, 0, to - bits, bits);
    PushZeros(to - bits);
    var padded := BitsOf(acc, bits) + Falses(to - bits);
    ChunkValue(Push(acc, 0, to - bits), to, padded);
    FalsesZero(padded);
    assert padded[..bits] == BitsOf(acc, bits);
    assert Falses(to)[..bits] == Falses(bits);
    assert Falses(to) == Falses(bits) + Falses(to - bits);
  }

  // ----- round trip

  lemma AllBitsOne(v: nat, w: nat)
    ensures AllBits([v], w) == BitsOf(v, w)
  {
    assert AllBits([v], w) == BitsOf(v, w) + AllBits([], w);
  }

  lemma NaturalsSame(data: seq<nat>)
    ensures Naturals(data) == data
  {
  }

  /** The number of zero bits that fill `length` bits up to a multiple of `w`. */
  function Padding(length: nat, w: nat): (p: nat)
    requires w > 0
    ensures p < w
  {
    if length == 0 then 0 else if length < w then w - length else Padding(length - w, w)
  }

  lemma {:induction false} PaddingOfCut(b: Bits, w: nat)
    requires w > 0
    ensures Padding(|b|, w) == if CutInto(b, w).rest == [] then 0 else w - |CutInto(b, w).rest|
  {
    hide Value;
    if |b| >= w {
      PaddingOfCut(b[w..], w);
    }
  }

  lemma FillZeros(b: Bits, rest: Bits, w: nat)
    requires 0 < |rest| < w
    ensures b + rest + Falses(w - |rest|) == b + (rest + Falses(w - |rest|))
  {
  }

  /** Filling up appends exactly the padding. */
  lemma FilledBits(b: Bits, w: nat)
    requires w > 0
    ensures AllBits(FillLast(CutInto(b, w), w), w) == b + Falses(Padding(|b|, w))
    ensures InRange(FillLast(CutInto(b, w), w), w)
  {
    hide CutInto, AllBits, Value, Padding, BitsOf;
    var c := CutInto(b, w);
    CutCovers(b, w);
    PaddingOfCut(b, w);
    if c.rest == [] {
      assert AllBits(c.chunks, w) + [] == AllBits(c.chunks, w);
    } else {
      var last := c.rest + Falses(w - |c.rest|);
      BitsOfValue(last);
      AllBitsAppend(c.chunks, [Value(last)], w);
      AllBitsOne(Value(last), w);
      FillZeros(AllBits(c.chunks, w), c.rest, w);
    }
  }

  /** Regrouping with padding appends the padding to the bits. */
  lemma PaddedBits(data: seq<int>, from: nat, to: nat)
    requires 0 < to && InRange(data, from)
    ensures var narrow := Regrouped(data, from, to, true);
      && narrow.Some? && InRange(narrow.value, to)
      && AllBits(narrow.value, to) == AllBits(Naturals(data), from) + Falses(Padding(Repeated(from, |data|), to))
  {
    hide CutInto, AllBits, FillLast, Padding;
    AllBitsLength(Naturals(data), from);
    FilledBits(AllBits(Naturals(data), from), to);
  }

  /** Cutting data followed by zeros: a short tail is left over, a long one makes another chunk. */
  lemma CutPadded(data: seq<nat>, w: nat, p: nat)
    requires w > 0 && forall i :: 0 <= i < |data| ==> data[i] < Pow2(w)
    ensures var c := CutInto(AllBits(data, w) + Falses(p), w);
      if p < w then c == Cut(data, Falses(p)) else |c.chunks| > |data|
  {
    hide AllBits;
    if p < w {
      CutOwnBits(data, w, Falses(p));
    } else {
      CutOwnBits(data, w, []);
      assert AllBits(data, w) + [] == AllBits(data, w);
      CutAppend(AllBits(data, w), Falses(p), w);
      assert [] + Falses(p) == Falses(p);
    }
  }

  /** Regrouping with padding and back without it restores the data exactly when the padding is shorter than one value;
      that is always so for values at least as wide as their regrouping. */
  lemma RoundTrip(data: seq<int>, from: nat, to: nat)
    requires 0 < to && 0 < from && InRange(data, from)
    ensures var narrow := Regrouped(data, from, to, true);
      && narrow.Some?
      && InRange(narrow.value, to)
      && (Regrouped(narrow.value, to, from, false) == Some(data) <==> Padding(Repeated(from, |data|), to) < from)
      && (to <= from ==> Regrouped(narrow.value, to, from, false) == Some(data))
  {
    hide AllBits, CutInto, FillLast, Falses, Padding, Repeated;
    PaddedBits(data, from, to);
    var narrow := Regrouped(data, from, to, true).value;
    var p := Padding(Repeated(from, |data|), to);
    NaturalsSame(narrow);
    CutPadded(Naturals(data), from, p);
    assert Naturals(data) == data;
  }

  /** Most significant bits first: 1111 1111 0000 0001 makes 11111, 11100, 00000, 1 and four zeros. */
  lemma RegroupedExample()
    ensures Regrouped([0xFF, 0x01], 8, 5, true) == Some([31, 28, 0, 16])
  {
    hide BitsOf, Value;
    var t, f := true, false;
    assert InRange([0xFF, 0x01], 8) by {
      assert Pow2(8) == 256;
    }
    ExampleBytes();
    var data: seq<nat> := [0xFF, 0x01];
    var bits := [t, t, t, t, t, t, t, t] + [f, f, f, f, f, f, f, t];
    var input: seq<int> := [0xFF, 0x01];
    assert Naturals(input) == data;
    AllBitsOne(0x01, 8);
    assert data[1..] == [0x01] && AllBits(data, 8) == bits;
    ExampleChunks();
    var rest1, rest2, rest3 := bits[5..], bits[10..], bits[15..];
    assert bits[..5] == [t, t, t, t, t];
    assert rest1[..5] == [t, t, t, f, f] && rest1[5..] == rest2;
    assert rest2[..5] == [f, f, f, f, f] && rest2[5..] == rest3 == [t];
    assert CutInto(rest3, 5) == Cut([], [t]);
    assert CutInto(rest2, 5) == Cut([0], [t]);
    assert CutInto(rest1, 5) == Cut([28, 0], [t]);
    assert CutInto(bits, 5) == Cut([31, 28, 0], [t]);
    assert [t] + Falses(4) == [t, f, f, f, f];
    assert FillLast(Cut([31, 28, 0], [t]), 5) == [31, 28, 0] + [16] == [31, 28, 0, 16];
  }

  lemma ExampleBytes()
    ensures BitsOf(0xFF, 8) == [true, true, true, true, true, true, true, true]
    ensures BitsOf(0x01, 8) == [false, false, false, false, false, false, false, true]
  {
    assert BitsOf(0xF, 4) == [true, true, true, true] && BitsOf(0, 4) == [false, false, false, false];
    SplitBits(0xFF, 4, 4);
    SplitBits(0x01, 4, 4);
    assert BitsOf(0xFF, 4) == [true, true, true, true] && BitsOf(0x01, 4) == [false, false, false, true];
    assert ShiftRight(0xFF, 4) == 0xF && ShiftRight(0x01, 4) == 0;
  }

  lemma ExampleChunks()
    ensures Value([true, true, true, true, true]) == 31 && Value([true, true, true, false, false]) == 28
    ensures Value([false, false, false, false, false]) == 0 && Value([true, false, false, false, false]) == 16
  {
    forall a: bool, b: bool, c: bool, d: bool, e: bool
      ensures Value([a, b, c, d, e]) ==
        (if a then 16 else 0) + (if b then 8 else 0) + (if c then 4 else 0) + (if d then 2 else 0) + (if e then 1 else 0)
    {
      FiveBits(a, b, c, d, e);
    }
  }

  lemma FiveBits(a: bool, b: bool, c: bool, d: bool, e: bool)
    ensures Value([a, b, c, d, e]) ==
      (if a then 16 else 0) + (if b then 8 else 0) + (if c then 4 else 0) + (if d then 2 else 0) + (if e then 1 else 0)
  {
    var s := [a, b, c, d, e];
    assert s[..4] == [a, b, c, d] && s[..4][..3] == [a, b, c] && s[..4][..3][..2] == [a, b];
    assert [a, b][..1] == [a] && [a][..0] == [];
    assert Value([a]) == if a then 1 else 0;
    assert Value([a, b]) == 2 * Value([a]) + if b then 1 else 0;
    assert Value([a, b, c]) == 2 * Value([a, b]) + if c then 1 else 0;
    assert Value([a, b, c, d]) == 2 * Value([a, b, c]) + if d then 1 else 0;
  }

  /** Two 5-bit values regrouped to bytes do not come back. */
  lemma WideningFails()
    ensures Regrouped([0, 0], 5, 8, true).Some?
    ensures Regrouped(Regrouped([0, 0], 5, 8, true).value, 8, 5, false) != Some([0, 0])
  {
    assert InRange([0, 0], 5);
    assert Repeated(5, 2) == 10 && Padding(10, 8) == Padding(2, 8) == 6;
    RoundTrip([0, 0], 5, 8);
  }

  lemma {:induction false} CutCount(b: Bits, w: nat, chunks: nat)
    requires w > 0 && |CutInto(b, w).chunks| == chunks
    ensures |b| == Repeated(w, chunks) + |CutInto(b, w).rest|
  {
    if |b| >= w {
      CutCount(b[w..], w, chunks - 1);
    }
  }

  /** w * n. */
  function Repeated(w: nat, n: nat): (r: nat) {
    if n == 0 then 0 else Repeated(w, n - 1) + w
  }

  lemma {:induction false} AllBitsLength(data: seq<nat>, w: nat)
    ensures |AllBits(data, w)| == Repeated(w, |data|)
  {
    if data != [] {
      AllBitsLength(data[1..], w);
    }
  }

  /** Bytes regrouped into 5-bit symbols give ceil(8n / 5) of them. */
  lemma SymbolCount(data: seq<int>)
    requires InRange(data, 8)
    ensures Regrouped(data, 8, 5, true).Some?
    ensures |Regrouped(data, 8, 5, true).value| == (8 * |data| + 4) / 5
  {
    var bits := AllBits(Naturals(data), 8);
    var c := CutInto(bits, 5);
    AllBitsLength(Naturals(data), 8);
    CutCount(bits, 5, |c.chunks|);
    EightTimes(|data|);
    FiveTimes(|c.chunks|);
  }

  lemma {:induction false} EightTimes(n: nat)
    ensures Repeated(8, n) == 8 * n
  {
    if n > 0 {
      EightTimes(n - 1);
    }
  }

  lemma {:induction false} FiveTimes(n: nat)
    ensures Repeated(5, n) == 5 * n
  {
    if n > 0 {
      FiveTimes(n - 1);
    }
  }
}
