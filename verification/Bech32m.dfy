/** The Bech32m checksum and address encoding (bitcoin/taproot.py), after BIP 173 and BIP 350. */
module Bech32m {
  import opened Bytes
  import opened Numbers
  import opened ConvertBits

  /** A machine word; symbols use 5 bits of it and checksums 30. */
  type Word = bv32

  const BECH32M_CONST: Word := 0x2BC830A3
  const LIMIT: Word := 0x4000_0000

  function Plus(a: Word, b: Word): (r: Word) {
    a ^ b
  }

  function Pick(b: Word, bit: Word, g: Word): (r: Word) {
    if b & bit != 0 then g else 0
  }

  /** The generator words selected by the five bits shifted out. */
  function Fold(b: Word): (r: Word) {
    Plus(Plus(Plus(Plus(
      Pick(b, 1, 0x3B6A57B2), Pick(b, 2, 0x26508E6D)), Pick(b, 4, 0x1EA119FA)), Pick(b, 8, 0x3D4233DD)), Pick(b, 16, 0x2A1462B3))
  }

  function Kept(chk: Word): (r: Word) {
    (chk & 0x1FFFFFF) << 5
  }

  /** One multiplication by x in the code's polynomial ring. */
  function Shift(chk: Word): (r: Word) {
    Plus(Kept(chk), Fold(chk >> 25))
  }

  function Absorb(chk: Word, values: seq<Word>): (r: Word)
    decreases |values|
  {
    if values == [] then chk else Absorb(Plus(Shift(chk), values[0]), values[1..])
  }

  function Polymod(values: seq<Word>): (r: Word) {
    Absorb(1, values)
  }

  /** One symbol more: a shift and the symbol, from 1 on. */
  lemma PolymodStep(values: seq<Word>, v: Word)
    ensures Polymod([]) == 1
    ensures Polymod(values + [v]) == Shift(Polymod(values)) ^ v
  {
    hide Shift;
    AbsorbSplit(1, values, [v]);
    assert [v][1..] == [];
    OneSymbol(Polymod(values), v);
  }

  lemma OneSymbol(chk: Word, v: Word)
    ensures Absorb(chk, [v]) == Shift(chk) ^ v
  {
    hide Shift;
    assert [v][1..] == [];
  }

  /** The shift is linear, moves the low 25 bits up by five, and turns each bit above them into its generator. */
  lemma ShiftWritten(a: Word, b: Word)
    ensures Shift(a ^ b) == Shift(a) ^ Shift(b)
    ensures a < 0x200_0000 ==> Shift(a) == a << 5
    ensures Shift(0x200_0000) == 0x3B6A57B2 && Shift(0x400_0000) == 0x26508E6D && Shift(0x800_0000) == 0x1EA119FA
    ensures Shift(0x1000_0000) == 0x3D4233DD && Shift(0x2000_0000) == 0x2A1462B3
  {
    assert Shift(a ^ b) == Shift(a) ^ Shift(b) by {
      hide Shift;
      LinearWritten(a, b);
    }
    if a < 0x200_0000 {
      NoOverflow(a);
    }
  }

  lemma LinearWritten(a: Word, b: Word)
    ensures Shift(a ^ b) == Shift(a) ^ Shift(b)
  {
    hide Shift;
    ShiftLinear(a, b);
  }

  const GENERATORS: seq<Word> := [0x3B6A57B2, 0x26508E6D, 0x1EA119FA, 0x3D4233DD, 0x2A1462B3]

  /** `GEN[i] if ((b >> i) & 1) else 0`. */
  function Chosen(b: Word, i: nat): (g: Word)
    requires i < 5
  {
    if (b >> i) & 1 == 1 then GENERATORS[i] else 0
  }

  /** The inner loop's first `i` steps. */
  function FoldUpTo(b: Word, chk: Word, i: nat): (r: Word)
    requires i <= 5
  {
    if i == 0 then chk else Plus(FoldUpTo(b, chk, i - 1), Chosen(b, i - 1))
  }

  lemma FoldedAll(b: Word, chk: Word)
    ensures FoldUpTo(b, chk, 5) == Plus(chk, Fold(b))
  {
    hide Plus, Pick, Chosen;
    ChosenIsPick(b);
    var f0 := FoldUpTo(b, chk, 0);
    var f1 := FoldUpTo(b, chk, 1);
    var f2 := FoldUpTo(b, chk, 2);
    var f3 := FoldUpTo(b, chk, 3);
    assert f0 == chk && f1 == Plus(f0, Chosen(b, 0));
    assert f2 == Plus(f1, Chosen(b, 1));
    assert f3 == Plus(f2, Chosen(b, 2));
    Reassociate(chk, Pick(b, 1, 0x3B6A57B2), Pick(b, 2, 0x26508E6D), Pick(b, 4, 0x1EA119FA), Pick(b, 8, 0x3D4233DD), Pick(b, 16, 0x2A1462B3));
  }

  lemma ChosenIsPick(b: Word)
    ensures Chosen(b, 0) == Pick(b, 1, 0x3B6A57B2)
    ensures Chosen(b, 1) == Pick(b, 2, 0x26508E6D)
    ensures Chosen(b, 2) == Pick(b, 4, 0x1EA119FA)
    ensures Chosen(b, 3) == Pick(b, 8, 0x3D4233DD)
    ensures Chosen(b, 4) == Pick(b, 16, 0x2A1462B3)
  {
    BitAgrees(b);
  }

  lemma BitAgrees(b: Word)
    ensures (b >> 0) & 1 == 1 <==> b & 1 != 0
    ensures (b >> 1) & 1 == 1 <==> b & 2 != 0
    ensures (b >> 2) & 1 == 1 <==> b & 4 != 0
    ensures (b >> 3) & 1 == 1 <==> b & 8 != 0
    ensures (b >> 4) & 1 == 1 <==> b & 16 != 0
  {
  }

  lemma Associate(a: Word, b: Word, c: Word)
    ensures Plus(Plus(a, b), c) == Plus(a, Plus(b, c))
  {
  }

  lemma Reassociate(x: Word, a: Word, b: Word, c: Word, d: Word, e: Word)
    ensures Plus(Plus(Plus(Plus(Plus(x, a), b), c), d), e) == Plus(x, Plus(Plus(Plus(Plus(a, b), c), d), e))
  {
    hide Plus;
    Associate(x, a, b);
    Associate(x, Plus(a, b), c);
    Associate(x, Plus(Plus(a, b), c), d);
    Associate(x, Plus(Plus(Plus(a, b), c), d), e);
  }

  /** `_bech32_polymod`. */
  method PolymodLoop(values: seq<Word>) returns (chk: Word)
    ensures chk == Polymod(values)
  {
    hide Shift, Fold, Plus, Kept, Chosen;
    chk := 1;
    assert values[0..] == values;
    for j := 0 to |values|
      invariant Absorb(chk, values[j..]) == Polymod(values)
    {
      OneStep(chk, values[j]);
      assert values[j..][0] == values[j] && values[j..][1..] == values[j + 1..];
      var b := chk >> 25;
      chk := Plus(Kept(chk), values[j]);
      ghost var start := chk;
      for i := 0 to 5
        invariant chk == FoldUpTo(b, start, i)
      {
        chk := Plus(chk, Chosen(b, i));
      }
      FoldedAll(b, start);
    }
    assert values[|values|..] == [];
  }

  lemma OneStep(chk: Word, v: Word)
    ensures Plus(Plus(Kept(chk), v), Fold(chk >> 25)) == Plus(Shift(chk), v)
  {
    hide Fold, Kept, Plus;
    var k, f := Kept(chk), Fold(chk >> 25);
    Associate(k, v, f);
    Associate(k, f, v);
    Commute(v, f);
  }

  lemma Commute(a: Word, b: Word)
    ensures Plus(a, b) == Plus(b, a)
  {
  }

  // ----- linearity

  predicate OneBit(m: Word) {
    m == 1 || m == 2 || m == 4 || m == 8 || m == 16
  }

  lemma MaskBit(a: Word, b: Word, m: Word)
    requires OneBit(m)
    ensures Plus(a, b) & m != 0 <==> (a & m != 0) != (b & m != 0)
  {
  }

  lemma PlusSelf(g: Word)
    ensures Plus(g, g) == 0 && Plus(g, 0) == g && Plus(0, g) == g
  {
  }

  lemma PickLinear(a: Word, b: Word, m: Word, g: Word)
    requires OneBit(m)
    ensures Pick(Plus(a, b), m, g) == Plus(Pick(a, m, g), Pick(b, m, g))
  {
    hide Plus, OneBit;
    MaskBit(a, b, m);
    PlusSelf(g);
    PlusSelf(0);
  }

  lemma Interchange(a: Word, b: Word, c: Word, d: Word)
    ensures Plus(Plus(a, b), Plus(c, d)) == Plus(Plus(a, c), Plus(b, d))
  {
    hide Plus;
    Associate(a, b, Plus(c, d));
    Associate(b, c, d);
    Commute(b, c);
    Associate(c, b, d);
    Associate(a, c, Plus(b, d));
  }

  lemma FoldLinear(a: Word, b: Word)
    ensures Fold(Plus(a, b)) == Plus(Fold(a), Fold(b))
  {
    hide Pick, Plus;
    PickLinear(a, b, 1, 0x3B6A57B2);
    PickLinear(a, b, 2, 0x26508E6D);
    PickLinear(a, b, 4, 0x1EA119FA);
    PickLinear(a, b, 8, 0x3D4233DD);
    PickLinear(a, b, 16, 0x2A1462B3);
    var a1, a2, a3 := Pick(a, 1, 0x3B6A57B2), Pick(a, 2, 0x26508E6D), Pick(a, 4, 0x1EA119FA);
    var a4, a5 := Pick(a, 8, 0x3D4233DD), Pick(a, 16, 0x2A1462B3);
    var b1, b2, b3 := Pick(b, 1, 0x3B6A57B2), Pick(b, 2, 0x26508E6D), Pick(b, 4, 0x1EA119FA);
    var b4, b5 := Pick(b, 8, 0x3D4233DD), Pick(b, 16, 0x2A1462B3);
    Interchange(a1, b1, a2, b2);
    Interchange(Plus(a1, a2), Plus(b1, b2), a3, b3);
    Interchange(Plus(Plus(a1, a2), a3), Plus(Plus(b1, b2), b3), a4, b4);
    Interchange(Plus(Plus(Plus(a1, a2), a3), a4), Plus(Plus(Plus(b1, b2), b3), b4), a5, b5);
  }

  lemma KeptLinear(a: Word, b: Word)
    ensures Kept(Plus(a, b)) == Plus(Kept(a), Kept(b))
    ensures Plus(a, b) >> 25 == Plus(a >> 25, b >> 25)
  {
  }

  lemma ShiftLinear(a: Word, b: Word)
    ensures Shift(Plus(a, b)) == Plus(Shift(a), Shift(b))
  {
    hide Plus, Fold, Kept;
    KeptLinear(a, b);
    FoldLinear(a >> 25, b >> 25);
    Interchange(Kept(a), Kept(b), Fold(a >> 25), Fold(b >> 25));
  }

  function PlusAll(u: seq<Word>, w: seq<Word>): (d: seq<Word>)
    requires |u| == |w|
    ensures |d| == |u|
  {
    seq(|u|, i requires 0 <= i < |u| => Plus(u[i], w[i]))
  }

  /** The checksum of a difference is the difference of the checksums. */
  lemma {:induction false} AbsorbLinear(c: Word, d: Word, u: seq<Word>, w: seq<Word>)
    requires |u| == |w|
    ensures Plus(Absorb(c, u), Absorb(d, w)) == Absorb(Plus(c, d), PlusAll(u, w))
    decreases |u|
  {
    hide Plus, Shift;
    if u != [] {
      ShiftLinear(c, d);
      Interchange(Shift(c), u[0], Shift(d), w[0]);
      AbsorbLinear(Plus(Shift(c), u[0]), Plus(Shift(d), w[0]), u[1..], w[1..]);
      assert PlusAll(u, w)[1..] == PlusAll(u[1..], w[1..]);
    }
  }

  lemma {:induction false} AbsorbSplit(chk: Word, a: seq<Word>, b: seq<Word>)
    ensures Absorb(chk, a + b) == Absorb(Absorb(chk, a), b)
    decreases |a|
  {
    hide Plus, Shift;
    if a == [] {
      assert a + b == b;
    } else {
      AbsorbSplit(Plus(Shift(chk), a[0]), a[1..], b);
      assert (a + b)[1..] == a[1..] + b;
    }
  }

  // ----- the shift is injective on 30-bit words

  lemma ShiftInjective(a: Word)
    requires a < LIMIT && Shift(a) == 0
    ensures a == 0
  {
  }

  lemma ShiftBound(a: Word)
    requires a < LIMIT
    ensures Shift(a) < LIMIT
  {
  }

  lemma PlusBound(a: Word, b: Word)
    requires a < LIMIT && b < LIMIT
    ensures Plus(a, b) < LIMIT
  {
  }

  lemma PlusBound5(a: Word, b: Word)
    requires a < 32 && b < 32
    ensures Plus(a, b) < 32
  {
  }

  lemma ShiftZero()
    ensures Shift(0) == 0
  {
  }

  function ZeroWords(n: nat): (z: seq<Word>)
    ensures |z| == n
  {
    seq(n, _ => 0)
  }

  predicate Symbols(v: seq<Word>) {
    forall i :: 0 <= i < |v| ==> v[i] < 32
  }

  /** Values that do not reach beyond the checksum's 30 bits. */
  predicate Narrow(v: seq<Word>) {
    forall i :: 0 <= i < |v| ==> v[i] < LIMIT
  }

  lemma {:induction false} AbsorbBound(chk: Word, v: seq<Word>)
    requires chk < LIMIT && Narrow(v)
    ensures Absorb(chk, v) < LIMIT
    decreases |v|
  {
    hide Plus, Shift;
    if v != [] {
      ShiftBound(chk);
      PlusBound(Shift(chk), v[0]);
      AbsorbBound(Plus(Shift(chk), v[0]), v[1..]);
    }
  }

  /** Zeros after an error never hide it. */
  lemma {:induction false} AbsorbZeros(chk: Word, n: nat)
    requires chk < LIMIT
    ensures Absorb(chk, ZeroWords(n)) == 0 <==> chk == 0
    decreases n
  {
    hide Plus, Shift;
    if n > 0 {
      PlusSelf(Shift(chk));
      ShiftBound(chk);
      ShiftZero();
      if Shift(chk) == 0 {
        ShiftInjective(chk);
      }
      assert ZeroWords(n)[1..] == ZeroWords(n - 1);
      AbsorbZeros(Shift(chk), n - 1);
    }
  }

  // ----- six symbols fit a checksum word without overflow

  /** 32^k. */
  function Bound(k: nat): (b: Word)
    requires k <= 6
  {
    [1, 0x20, 0x400, 0x8000, 0x10_0000, 0x200_0000, 0x4000_0000][k]
  }

  lemma SmallStep(s: Word, v: Word, k: nat)
    requires k < 6 && s < Bound(k) && v < 32
    ensures Plus(Shift(s), v) < Bound(k + 1)
    ensures Plus(Shift(s), v) == 0 <==> s == 0 && v == 0
  {
    hide Shift, Fold;
    SmallShift(s, k);
  }

  lemma SmallShift(s: Word, k: nat)
    requires k < 6 && s < Bound(k)
    ensures Shift(s) == s << 5
  {
    BoundSmall(s, k);
    NoOverflow(s);
  }

  lemma BoundSmall(s: Word, k: nat)
    requires k < 6 && s < Bound(k)
    ensures s < 0x200_0000
  {
  }

  lemma NoOverflow(s: Word)
    requires s < 0x200_0000
    ensures Shift(s) == s << 5
  {
  }

  lemma EmptyBound()
    ensures 0 < Bound(0)
  {
  }

  /** A window of at most six symbols is remembered exactly up to whether it is all zero. */
  lemma {:induction false} WindowState(w: seq<Word>)
    requires |w| <= 6 && Symbols(w)
    ensures Absorb(0, w) < Bound(|w|)
    ensures Absorb(0, w) == 0 <==> w == ZeroWords(|w|)
  {
    hide Shift, Plus, Bound;
    EmptyBound();
    if w != [] {
      var k := |w| - 1;
      var init, last := w[..k], w[k];
      assert w == init + [last];
      WindowState(init);
      assert Symbols(init) && last < 32;
      AbsorbSplit(0, init, [last]);
      assert Absorb(Absorb(0, init), [last]) == Plus(Shift(Absorb(0, init)), last);
      SmallStep(Absorb(0, init), last, k);
      assert ZeroWords(|w|) == ZeroWords(k) + [0];
    }
  }

  lemma WindowBound(w: seq<Word>)
    requires |w| <= 6 && Symbols(w)
    ensures Absorb(0, w) < LIMIT
  {
    AbsorbBound(0, w);
  }

  /** Symbol sequences of equal length that differ, but only within six consecutive positions, have different checksums. */
  lemma BurstDetected(u: seq<Word>, w: seq<Word>, from: nat, to: nat)
    requires |u| == |w| && Symbols(u) && Symbols(w) && u != w
    requires from <= to <= |u| && to - from <= 6
    requires forall i :: 0 <= i < |u| && u[i] != w[i] ==> from <= i < to
    ensures Polymod(u) != Polymod(w)
  {
    hide Plus, Shift, Absorb;
    var d := PlusAll(u, w);
    Differences(u, w);
    var window := d[from..to];
    WindowOf(d, from, to);
    AbsorbSplit(0, ZeroWords(from), window + ZeroWords(|u| - to));
    AbsorbSplit(0, window, ZeroWords(|u| - to));
    AbsorbZeros(0, from);
    WindowState(window);
    WindowBound(window);
    AbsorbZeros(Absorb(0, window), |u| - to);
    AbsorbLinear(1, 1, u, w);
    PlusSelf(1);
    PlusSelf(Polymod(u));
    var i :| 0 <= i < |u| && u[i] != w[i];
    assert window[i - from] == d[i] != 0;
  }

  lemma WindowOf(d: seq<Word>, from: nat, to: nat)
    requires from <= to <= |d| && Symbols(d)
    requires forall i :: 0 <= i < |d| && d[i] != 0 ==> from <= i < to
    ensures Symbols(d[from..to])
    ensures d == ZeroWords(from) + (d[from..to] + ZeroWords(|d| - to))
  {
  }

  lemma Differences(u: seq<Word>, w: seq<Word>)
    requires |u| == |w| && Symbols(u) && Symbols(w)
    ensures Symbols(PlusAll(u, w))
    ensures forall i :: 0 <= i < |u| ==> (PlusAll(u, w)[i] == 0 <==> u[i] == w[i])
  {
    forall i | 0 <= i < |u|
      ensures PlusAll(u, w)[i] < 32 && (PlusAll(u, w)[i] == 0 <==> u[i] == w[i])
    {
      PlusBound5(u[i], w[i]);
      PlusZero(u[i], w[i]);
    }
  }

  lemma PlusZero(a: Word, b: Word)
    ensures Plus(a, b) == 0 <==> a == b
  {
    hide Plus;
    Associate(a, b, b);
    PlusSelf(a);
    PlusSelf(b);
  }

  // ----- the checksum

  /** `(x >> 5 * (5 - k)) & 31`. */
  function SymbolAt(x: Word, k: nat): (v: Word) {
    if k == 0 then (x >> 25) & 31
    else if k == 1 then (x >> 20) & 31
    else if k == 2 then (x >> 15) & 31
    else if k == 3 then (x >> 10) & 31
    else if k == 4 then (x >> 5) & 31
    else x & 31
  }

  /** The six 5-bit symbols of a checksum word, highest first. */
  function Unpack(x: Word): (c: seq<Word>)
    ensures |c| == 6
  {
    seq(6, k requires 0 <= k < 6 => SymbolAt(x, k))
  }

  lemma SymbolSmall(x: Word, k: nat)
    ensures SymbolAt(x, k) < 32
  {
  }

  lemma UnpackSymbols(x: Word)
    ensures Symbols(Unpack(x))
  {
    hide SymbolAt;
    forall k | 0 <= k < 6
      ensures Unpack(x)[k] < 32
    {
      SymbolSmall(x, k);
    }
  }

  predicate IsTrace(s: seq<Word>, v: seq<Word>) {
    |s| == |v| + 1 && forall k :: 0 <= k < |v| ==> s[k + 1] == Plus(Shift(s[k]), v[k])
  }

  lemma {:induction false} TraceEnd(s: seq<Word>, v: seq<Word>)
    requires IsTrace(s, v)
    ensures Absorb(s[0], v) == s[|v|]
    decreases |v|
  {
    hide Plus, Shift;
    if v != [] {
      TraceEnd(s[1..], v[1..]);
    }
  }

  /** The leading 5k bits of a checksum word. */
  function Prefix(x: Word, k: nat): (p: Word) {
    if k == 0 then 0
    else if k == 1 then x >> 25
    else if k == 2 then x >> 20
    else if k == 3 then x >> 15
    else if k == 4 then x >> 10
    else if k == 5 then x >> 5
    else x
  }

  /** Shifting `symbol` in behind `hi` gives `lo`, without overflow. */
  predicate ShiftsTo(hi: Word, symbol: Word, lo: Word) {
    hi < 0x200_0000 && (hi << 5) ^ symbol == lo
  }

  lemma PrefixSplit0(x: Word)
    requires x < LIMIT
    ensures ShiftsTo(Prefix(x, 0), SymbolAt(x, 0), Prefix(x, 1))
  {
  }

  lemma PrefixSplit1(x: Word)
    requires x < LIMIT
    ensures ShiftsTo(Prefix(x, 1), SymbolAt(x, 1), Prefix(x, 2))
  {
  }

  lemma PrefixSplit2(x: Word)
    requires x < LIMIT
    ensures ShiftsTo(Prefix(x, 2), SymbolAt(x, 2), Prefix(x, 3))
  {
  }

  lemma PrefixSplit3(x: Word)
    requires x < LIMIT
    ensures ShiftsTo(Prefix(x, 3), SymbolAt(x, 3), Prefix(x, 4))
  {
  }

  lemma PrefixSplit4(x: Word)
    requires x < LIMIT
    ensures ShiftsTo(Prefix(x, 4), SymbolAt(x, 4), Prefix(x, 5))
  {
  }

  lemma PrefixSplit5(x: Word)
    requires x < LIMIT
    ensures ShiftsTo(Prefix(x, 5), SymbolAt(x, 5), Prefix(x, 6))
  {
  }

  lemma PrefixSplit(x: Word, k: nat)
    requires x < LIMIT && k < 6
    ensures ShiftsTo(Prefix(x, k), SymbolAt(x, k), Prefix(x, k + 1))
  {
    hide ShiftsTo, Prefix, SymbolAt;
    if k == 0 {
      PrefixSplit0(x);
    } else if k == 1 {
      PrefixSplit1(x);
    } else if k == 2 {
      PrefixSplit2(x);
    } else if k == 3 {
      PrefixSplit3(x);
    } else if k == 4 {
      PrefixSplit4(x);
    } else {
      PrefixSplit5(x);
    }
  }

  lemma PrefixStep(x: Word, k: nat)
    requires x < LIMIT && k < 6
    ensures Prefix(x, k + 1) == Plus(Shift(Prefix(x, k)), SymbolAt(x, k))
  {
    hide Shift, Prefix, SymbolAt;
    PrefixSplit(x, k);
    NoOverflow(Prefix(x, k));
  }

  /** Absorbing the six symbols of a word from zero gives the word back. */
  lemma UnpackAbsorb(x: Word)
    requires x < LIMIT
    ensures Absorb(0, Unpack(x)) == x
  {
    hide Plus, Shift, SymbolAt, Absorb;
    var prefixes := seq(7, k requires 0 <= k < 7 => Prefix(x, k));
    forall k | 0 <= k < 6
      ensures prefixes[k + 1] == Plus(Shift(prefixes[k]), Unpack(x)[k])
    {
      PrefixStep(x, k);
    }
    TraceEnd(prefixes, Unpack(x));
  }

  /** `checksum` of `encode_bech32m`. */
  function Checksum(values: seq<Word>): (c: seq<Word>)
    ensures |c| == 6
  {
    Unpack(Plus(Polymod(values + ZeroWords(6)), BECH32M_CONST))
  }

  /** Appending the checksum makes the whole sequence check. */
  lemma ChecksumValid(values: seq<Word>)
    requires Narrow(values)
    ensures Symbols(Checksum(values))
    ensures Polymod(values + Checksum(values)) == BECH32M_CONST
  {
    hide Plus, Shift, Unpack;
    var zeros := ZeroWords(6);
    AbsorbBound(1, values + zeros);
    var p := Polymod(values + zeros);
    PlusBound(p, BECH32M_CONST);
    var x := Plus(p, BECH32M_CONST);
    var c := Checksum(values);
    UnpackSymbols(x);
    UnpackAbsorb(x);
    ChecksumShift(values, c);
    Recover(p, BECH32M_CONST, Polymod(values + c));
  }

  /** Replacing six trailing zeros by `c` changes the checksum by what `c` absorbs to. */
  lemma ChecksumShift(values: seq<Word>, c: seq<Word>)
    requires |c| == 6
    ensures Plus(Polymod(values + c), Polymod(values + ZeroWords(6))) == Absorb(0, c)
  {
    hide Plus, Shift;
    var v := Absorb(1, values);
    AbsorbSplit(1, values, c);
    AbsorbSplit(1, values, ZeroWords(6));
    AbsorbLinear(v, v, c, ZeroWords(6));
    PlusSelf(v);
    forall i | 0 <= i < 6
      ensures PlusAll(c, ZeroWords(6))[i] == c[i]
    {
      PlusSelf(c[i]);
    }
    assert PlusAll(c, ZeroWords(6)) == c;
  }

  lemma Recover(p: Word, q: Word, r: Word)
    requires Plus(r, p) == Plus(p, q)
    ensures r == q
  {
  }

  /** No other six symbols check. */
  lemma ChecksumUnique(values: seq<Word>, c: seq<Word>)
    requires Symbols(values) && Symbols(c) && |c| == 6
    requires Polymod(values + c) == BECH32M_CONST
    ensures c == Checksum(values)
  {
    hide Polymod;
    var good := Checksum(values);
    ChecksumValid(values);
    if c != good {
      var n := |values|;
      assert (values + c)[n..] == c && (values + good)[n..] == good;
      BurstDetected(values + c, values + good, n, n + 6);
      assert false;
    }
  }

  // ----- addresses

  const CHARSET: string := "qpzry9x8gf2tvdw0s3jn54khce6mua7l"

  /** More than any character code shifted right by five. */
  const WIDE: nat := 0x1_0000

  function ToWord(n: nat): (w: Word)
    requires n < WIDE
  {
    (n as bv16) as Word
  }

  function SymbolsOf(v: seq<nat>): (w: seq<Word>)
    requires forall i :: 0 <= i < |v| ==> v[i] < WIDE
    ensures |w| == |v|
  {
    seq(|v|, i requires 0 <= i < |v| => ToWord(v[i]))
  }

  /** `_bech32_hrp_expand`. */
  function ExpandHrp(hrp: string): (v: seq<nat>)
    ensures |v| == 2 * |hrp| + 1
    ensures forall i :: 0 <= i < |v| ==> v[i] < WIDE
  {
    seq(|hrp|, i requires 0 <= i < |hrp| => hrp[i] as int / 32) + [0] + seq(|hrp|, i requires 0 <= i < |hrp| => hrp[i] as int % 32)
  }

  lemma SymbolsInRange(v: seq<nat>)
    requires forall i :: 0 <= i < |v| ==> v[i] < WIDE
    ensures Narrow(SymbolsOf(v))
  {
    forall i | 0 <= i < |v|
      ensures SymbolsOf(v)[i] < LIMIT
    {
      WordNarrow(v[i]);
    }
  }

  lemma WordNarrow(n: nat)
    requires n < WIDE
    ensures ToWord(n) < LIMIT
  {
  }

  lemma SmallNat(w: Word)
    requires w < 32
    ensures w as nat < 32 && ToWord(w as nat) == w
  {
  }

  function NatsOf(w: seq<Word>): (v: seq<nat>)
    requires Symbols(w)
    ensures |v| == |w|
    ensures forall i :: 0 <= i < |v| ==> v[i] < 32
  {
    seq(|w|, i requires 0 <= i < |w| => SmallNat(w[i]); w[i] as nat)
  }

  function Charmap(v: seq<nat>): (s: string)
    requires forall i :: 0 <= i < |v| ==> v[i] < 32
    ensures |s| == |v|
  {
    seq(|v|, i requires 0 <= i < |v| => CHARSET[v[i]])
  }

  /** The symbols an address carries after the separator: version, program, checksum. */
  ghost function AddressSymbols(hrp: string, version: nat, program: bytes): (v: seq<nat>)
    requires version < 32
    ensures forall i :: 0 <= i < |v| ==> v[i] < 32
  {
    var data := [version] + FiveBit(program);
    var words := SymbolsOf(ExpandHrp(hrp) + data);
    SymbolsInRange(ExpandHrp(hrp) + data);
    ChecksumValid(words);
    data + NatsOf(Checksum(words))
  }

  function Integers(program: bytes): (v: seq<int>)
    ensures |v| == |program| && forall i :: 0 <= i < |v| ==> v[i] == program[i] as int
  {
    seq(|program|, i requires 0 <= i < |program| => program[i] as int)
  }

  lemma BytesInRange(program: bytes)
    ensures InRange(Integers(program), 8)
  {
    assert Pow2(8) == 256;
  }

  ghost function FiveBit(program: bytes): (v: seq<nat>)
    ensures Regrouped(Integers(program), 8, 5, true) == Some(v)
    ensures forall i :: 0 <= i < |v| ==> v[i] < 32
  {
    BytesInRange(program);
    RoundTrip(Integers(program), 8, 5);
    assert Pow2(5) == 32;
    Regrouped(Integers(program), 8, 5, true).value
  }

  /** `encode_bech32m`: None stands for the IndexError of a version that is no symbol. */
  method EncodeBech32m(hrp: string, version: nat, program: bytes) returns (address: Option<string>)
    ensures address == if version < 32 then Some(hrp + "1" + Charmap(AddressSymbols(hrp, version, program))) else None
  {
    if version >= 32 {
      return None;
    }
    BytesInRange(program);
    RoundTrip(Integers(program), 8, 5);
    var five := ConvertBits.ConvertBits(Integers(program), 8, 5, true);
    assert five == Some(FiveBit(program));
    var data := [version] + five.value;
    var words := SymbolsOf(ExpandHrp(hrp) + data);
    SymbolsInRange(ExpandHrp(hrp) + data);
    ChecksumValid(words);
    var residue := PolymodLoop(words + ZeroWords(6));
    var checksum := Unpack(Plus(residue, BECH32M_CONST));
    return Some(hrp + "1" + Charmap(data + NatsOf(checksum)));
  }

  /** The expanded prefix: the high parts of all characters, a zero, the low five bits of all characters. */
  lemma ExpansionParts(hrp: string, i: nat)
    requires i < |hrp|
    ensures var v := ExpandHrp(hrp);
      && |v| == 2 * |hrp| + 1 && v[|hrp|] == 0
      && 32 * v[i] + v[|hrp| + 1 + i] == hrp[i] as int && v[|hrp| + 1 + i] < 32
  {
  }

  /** The parts that an expansion holds of character `i`. */
  predicate PartsOf(hrp: string, v: seq<nat>, i: nat)
    requires i < |hrp| && |v| == 2 * |hrp| + 1
  {
    32 * v[i] + v[|hrp| + 1 + i] == hrp[i] as int && v[|hrp| + 1 + i] < 32
  }

  lemma ExpansionUnique(hrp: string, v: seq<nat>)
    requires |v| == 2 * |hrp| + 1 && v[|hrp|] == 0 && forall i :: 0 <= i < |hrp| ==> PartsOf(hrp, v, i)
    ensures v == ExpandHrp(hrp)
  {
    hide PartsOf, ExpandHrp;
    var w, n := ExpandHrp(hrp), |hrp|;
    ExpansionMiddle(hrp);
    forall i | 0 <= i < |v|
      ensures v[i] == w[i]
    {
      if i != n {
        var k := if i < n then i else i - n - 1;
        assert PartsOf(hrp, v, k);
        SameParts(hrp, v, k);
      }
    }
  }

  lemma ExpansionMiddle(hrp: string)
    ensures |ExpandHrp(hrp)| == 2 * |hrp| + 1 && ExpandHrp(hrp)[|hrp|] == 0
  {
  }

  lemma SameParts(hrp: string, v: seq<nat>, i: nat)
    requires i < |hrp| && |v| == 2 * |hrp| + 1 && PartsOf(hrp, v, i)
    ensures v[i] == ExpandHrp(hrp)[i] && v[|hrp| + 1 + i] == ExpandHrp(hrp)[|hrp| + 1 + i]
  {
    hide ExpandHrp;
    ExpansionParts(hrp, i);
    var w := ExpandHrp(hrp);
    SameDigits(v[i], v[|hrp| + 1 + i], w[i], w[|hrp| + 1 + i]);
  }

  lemma SameDigits(a: nat, b: nat, c: nat, d: nat)
    requires 32 * a + b == 32 * c + d && b < 32 && d < 32
    ensures a == c && b == d
  {
  }

  /** What an address carries checks out, as the constant of BIP 350, behind the expansion of its human-readable part: high
      parts, zero, low parts. */
  lemma AddressChecks(hrp: string, version: nat, program: bytes, expanded: seq<nat>)
    requires version < 32
    requires |expanded| == 2 * |hrp| + 1 && expanded[|hrp|] == 0
    requires forall i :: 0 <= i < |hrp| ==> PartsOf(hrp, expanded, i)
    ensures forall i :: 0 <= i < |expanded| ==> expanded[i] < WIDE
    ensures Polymod(SymbolsOf(expanded + AddressSymbols(hrp, version, program))) == 0x2BC830A3
  {
    hide Polymod, Unpack, Checksum, FiveBit, SymbolsOf, NatsOf, ExpandHrp;
    ExpansionUnique(hrp, expanded);
    var data := [version] + FiveBit(program);
    var words := SymbolsOf(ExpandHrp(hrp) + data);
    SymbolsInRange(ExpandHrp(hrp) + data);
    ChecksumValid(words);
    var checksum := Checksum(words);
    WordsOfNats(checksum);
    SymbolsOfAppend(ExpandHrp(hrp) + data, NatsOf(checksum));
    assert ExpandHrp(hrp) + (data + NatsOf(checksum)) == (ExpandHrp(hrp) + data) + NatsOf(checksum);
  }

  /** A valid string of BIP 350, a1lqfn3a: the prefix "a" expanded, no data, six symbols. */
  lemma ReferenceString()
    ensures Polymod([3, 0, 1, 31, 0, 9, 19, 17, 29]) == 0x2BC830A3
  {
    hide Polymod, Plus, Shift;
    var v: seq<Word> := [3, 0, 1, 31, 0, 9, 19, 17, 29];
    var s: seq<Word> := [1, 0x23, 0x460, 0x8C01, 0x11803F, 0x23007E0, 0x3D6AABBB, 0x2F2B18A, 0x253C66E3, 0x2BC830A3];
    ReferenceSteps();
    TraceEnd(s, v);
    assert Polymod(v) == Absorb(1, v) by {
      PolymodIs(v);
    }
  }

  lemma PolymodIs(v: seq<Word>)
    ensures Polymod(v) == Absorb(1, v)
  {
  }

  lemma ReferenceSteps()
    ensures Plus(Shift(1), 3) == 0x23 && Plus(Shift(0x23), 0) == 0x460 && Plus(Shift(0x460), 1) == 0x8C01
    ensures Plus(Shift(0x8C01), 31) == 0x11803F && Plus(Shift(0x11803F), 0) == 0x23007E0
    ensures Plus(Shift(0x23007E0), 9) == 0x3D6AABBB && Plus(Shift(0x3D6AABBB), 19) == 0x2F2B18A
    ensures Plus(Shift(0x2F2B18A), 17) == 0x253C66E3 && Plus(Shift(0x253C66E3), 29) == 0x2BC830A3
  {
  }

  /** Symbols are written in the character set of BIP 173. */
  lemma AddressText(v: seq<nat>, i: nat)
    requires i < |v| && forall k :: 0 <= k < |v| ==> v[k] < 32
    ensures Charmap(v)[i] == "qpzry9x8gf2tvdw0s3jn54khce6mua7l"[v[i]]
  {
  }

  /** A symbol as a word is the same number. */
  lemma WordValue(n: nat)
    requires n < 32
    ensures ToWord(n) as nat == n
  {
    SmallNat(n as Word);
  }

  lemma SymbolsOfAppend(v: seq<nat>, w: seq<nat>)
    requires forall i :: 0 <= i < |v| ==> v[i] < WIDE
    requires forall i :: 0 <= i < |w| ==> w[i] < WIDE
    ensures SymbolsOf(v + w) == SymbolsOf(v) + SymbolsOf(w)
  {
    var all := v + w;
    forall i | 0 <= i < |all|
      ensures SymbolsOf(all)[i] == (SymbolsOf(v) + SymbolsOf(w))[i]
    {
      assert all[i] == if i < |v| then v[i] else w[i - |v|];
    }
  }

  lemma WordsOfNats(w: seq<Word>)
    requires Symbols(w)
    ensures SymbolsOf(NatsOf(w)) == w
  {
    forall i | 0 <= i < |w|
      ensures SymbolsOf(NatsOf(w))[i] == w[i]
    {
      SmallNat(w[i]);
    }
  }

  /** The position of a character in the charset. */
  function CharIndex(c: char): (i: nat) {
    match c
    case 'q' => 0 case 'p' => 1 case 'z' => 2 case 'r' => 3
    case 'y' => 4 case '9' => 5 case 'x' => 6 case '8' => 7
    case 'g' => 8 case 'f' => 9 case '2' => 10 case 't' => 11
    case 'v' => 12 case 'd' => 13 case 'w' => 14 case '0' => 15
    case 's' => 16 case '3' => 17 case 'j' => 18 case 'n' => 19
    case '5' => 20 case '4' => 21 case 'k' => 22 case 'h' => 23
    case 'c' => 24 case 'e' => 25 case '6' => 26 case 'm' => 27
    case 'u' => 28 case 'a' => 29 case '7' => 30 case 'l' => 31
    case _ => 32
  }

  lemma CharsetIndexed(i: nat)
    requires i < 32
    ensures CharIndex(CHARSET[i]) == i
  {
  }

  lemma CharmapInjective(v: seq<nat>, w: seq<nat>)
    requires forall i :: 0 <= i < |v| ==> v[i] < 32
    requires forall i :: 0 <= i < |w| ==> w[i] < 32
    requires Charmap(v) == Charmap(w)
    ensures v == w
  {
    hide CharIndex;
    assert |v| == |Charmap(v)| == |Charmap(w)| == |w|;
    forall i | 0 <= i < |v|
      ensures v[i] == w[i]
    {
      CharsetIndexed(v[i]);
      CharsetIndexed(w[i]);
      assert Charmap(v)[i] == Charmap(w)[i];
    }
  }

  /** Under one human-readable part, an address determines its witness version and program. */
  lemma AddressInjective(hrp: string, v1: nat, p1: bytes, v2: nat, p2: bytes)
    requires v1 < 32 && v2 < 32
    requires hrp + "1" + Charmap(AddressSymbols(hrp, v1, p1)) == hrp + "1" + Charmap(AddressSymbols(hrp, v2, p2))
    ensures v1 == v2 && p1 == p2
  {
    hide AddressSymbols, FiveBit, Charmap, InRange;
    var s1, s2 := AddressSymbols(hrp, v1, p1), AddressSymbols(hrp, v2, p2);
    TailOf(hrp + "1", Charmap(s1));
    TailOf(hrp + "1", Charmap(s2));
    CharmapInjective(s1, s2);
    AddressParts(hrp, v1, p1);
    AddressParts(hrp, v2, p2);
    BytesInRange(p1);
    BytesInRange(p2);
    RoundTrip(Integers(p1), 8, 5);
    RoundTrip(Integers(p2), 8, 5);
    assert Integers(p1) == Integers(p2);
    forall i | 0 <= i < |p1|
      ensures p1[i] == p2[i]
    {
      assert Integers(p1)[i] == Integers(p2)[i];
    }
  }

  lemma TailOf(prefix: string, s: string)
    ensures (prefix + s)[|prefix|..] == s
  {
  }

  /** An address carries its version, its program regrouped to five bits, and six more symbols. */
  lemma AddressParts(hrp: string, version: nat, program: bytes)
    requires version < 32
    ensures var s := AddressSymbols(hrp, version, program);
      |s| >= 7 && s[0] == version && Regrouped(Integers(program), 8, 5, true) == Some(s[1..|s| - 6])
  {
    var s, five := AddressSymbols(hrp, version, program), FiveBit(program);
    assert s[1..|s| - 6] == five;
  }
}
