/** The layered masking of a fixed-size onion, for any frame size `h` and any maximum hop count `m`. */
module OnionLayers {
  import opened Bytes
  import opened Numbers

  /** The key stream of one hop: its bytes by position, so a longer stream extends a shorter one. */
  type Stream = nat -> byte

  /** The length of `k` frames, k * h, by repeated addition. */
  function Frames(h: nat, k: nat): (size: nat) {
    if k == 0 then 0 else Frames(h, k - 1) + h
  }

  lemma {:induction false} FramesAdd(h: nat, a: nat, b: nat)
    ensures Frames(h, a) + Frames(h, b) == Frames(h, a + b)
  {
    if b > 0 {
      FramesAdd(h, a, b - 1);
    }
  }

  const ZERO_MAC: Digest := Zeros(32)

  function Mask(b: bytes, s: Stream): (r: bytes)
    ensures |r| == |b|
  {
    seq(|b|, j requires 0 <= j < |b| => Xor(b[j], s(j)))
  }

  /** Masking is exclusive or with the stream, bit by bit. */
  lemma MaskedBit(b: bytes, s: Stream, j: nat, k: nat)
    requires j < |b| && k < 8
    ensures Bit(Mask(b, s)[j] as nat, k) <==> Bit(b[j] as nat, k) != Bit(s(j) as nat, k)
  {
    XorBitwise(b[j], s(j), k);
  }

  /** The filler buffer after `i` steps: shift left by one frame, zero the tail, mask everything. */
  function FillerBuffer(h: nat, m: nat, streams: seq<Stream>, i: nat): (f: bytes)
    requires i <= |streams|
    ensures |f| == Frames(h, m + 1)
  {
    if i == 0 then Zeros(Frames(h, m + 1))
    else
      Mask(FillerBuffer(h, m, streams, i - 1)[h..] + Zeros(h), streams[i - 1])
  }

  /** The tail that the innermost layer carries. */
  function Filler(h: nat, m: nat, streams: seq<Stream>): (f: bytes)
    requires 1 <= |streams| <= m
    ensures |f| == Frames(h, |streams| - 1)
  {
    var n := |streams|;
    FramesAdd(h, m - n + 2, n - 1);
    FillerBuffer(h, m, streams, n - 1)[Frames(h, m - n + 2)..]
  }

  /** Everything the sender needs per hop: key streams, frame heads and MACs; and the initial padding. */
  datatype Recipe = Recipe(h: nat, m: nat, streams: seq<Stream>, heads: seq<bytes>, macs: seq<bytes -> Digest>, pad: bytes)
  {
    function Size(): (size: nat) {
      Frames(h, m)
    }

    predicate Valid() {
      && 1 <= |streams| <= m
      && |heads| == |macs| == |streams|
      && (forall i :: 0 <= i < |heads| ==> |heads[i]| + 32 == h)
      && |pad| == Size()
    }
  }

  datatype Layered = Layered(buffer: bytes, mac: Digest)

  /** One wrapping step: prepend the frame, drop the last frame, mask; the innermost hop takes the filler as its tail. */
  function Wrap(r: Recipe, i: nat, inner: Layered): (buffer: bytes)
    requires r.Valid() && i < |r.streams| && |inner.buffer| == r.Size()
    ensures |buffer| == r.Size()
  {
    FrameFits(r);
    var masked := Mask(r.heads[i] + inner.mac + inner.buffer[..r.Size() - r.h], r.streams[i]);
    if i == |r.streams| - 1 then
      var filler := Filler(r.h, r.m, r.streams);
      masked[..|masked| - |filler|] + filler
    else masked
  }

  /** The buffer and MAC that hop `i` receives. */
  function Layer(r: Recipe, i: nat): (l: Layered)
    requires r.Valid() && i < |r.streams|
    ensures |l.buffer| == r.Size()
    decreases |r.streams| - i, 1
  {
    var buffer := Wrap(r, i, Inner(r, i));
    Layered(buffer, r.macs[i](buffer))
  }

  /** What hop `i`'s frame is followed by: the next hop's layer, or the initial padding with an all-zero MAC. */
  function Inner(r: Recipe, i: nat): (l: Layered)
    requires r.Valid() && i < |r.streams|
    ensures |l.buffer| == r.Size()
    decreases |r.streams| - i, 0
  {
    if i == |r.streams| - 1 then Layered(r.pad, ZERO_MAC) else Layer(r, i + 1)
  }

  /** The filler never reaches the innermost frame. */
  lemma FrameFits(r: Recipe)
    requires r.Valid()
    ensures Frames(r.h, |r.streams| - 1) + r.h <= r.Size()
  {
    FramesAdd(r.h, r.m - |r.streams|, |r.streams|);
  }

  /** One filler step, byte by byte. */
  lemma FillerStep(h: nat, m: nat, streams: seq<Stream>, i: nat, j: nat)
    requires i < |streams| && j < Frames(h, m + 1)
    ensures FillerBuffer(h, m, streams, i + 1)[j] ==
            Xor(if j < Frames(h, m) then FillerBuffer(h, m, streams, i)[j + h] else 0, streams[i](j))
  {
  }

  /** Behind the frame a wrapped buffer is the inner one, masked, wherever the filler does not overwrite it. */
  lemma WrapByte(r: Recipe, i: nat, inner: Layered, j: nat)
    requires r.Valid() && i < |r.streams| && |inner.buffer| == r.Size() && r.h <= j < r.Size()
    requires i < |r.streams| - 1 || j < r.Size() - Frames(r.h, |r.streams| - 1)
    ensures Wrap(r, i, inner)[j] == Xor(inner.buffer[j - r.h], r.streams[i](j))
  {
    FrameFits(r);
    var content := r.heads[i] + inner.mac + inner.buffer[..r.Size() - r.h];
    assert content[j] == inner.buffer[j - r.h];
    assert Wrap(r, i, inner)[j] == Mask(content, r.streams[i])[j];
  }

  lemma WrapFrame(r: Recipe, i: nat, inner: Layered, j: nat)
    requires r.Valid() && i < |r.streams| && |inner.buffer| == r.Size() && j < r.h <= r.Size()
    ensures Wrap(r, i, inner)[j] == Xor((r.heads[i] + inner.mac)[j], r.streams[i](j))
  {
    FrameFits(r);
    var content := r.heads[i] + inner.mac + inner.buffer[..r.Size() - r.h];
    assert content[j] == (r.heads[i] + inner.mac)[j];
    assert Wrap(r, i, inner)[j] == Mask(content, r.streams[i])[j];
  }

  lemma WrapTail(r: Recipe, inner: Layered, k: nat)
    requires r.Valid() && |inner.buffer| == r.Size() && k < Frames(r.h, |r.streams| - 1)
    ensures r.Size() - Frames(r.h, |r.streams| - 1) >= 0
    ensures Wrap(r, |r.streams| - 1, inner)[r.Size() - Frames(r.h, |r.streams| - 1) + k] == Filler(r.h, r.m, r.streams)[k]
  {
    FrameFits(r);
  }

  lemma FillerByte(h: nat, m: nat, streams: seq<Stream>, k: nat)
    requires 1 <= |streams| <= m && k < Frames(h, |streams| - 1)
    ensures Frames(h, m - |streams| + 2) + k < Frames(h, m + 1)
    ensures Filler(h, m, streams)[k] == FillerBuffer(h, m, streams, |streams| - 1)[Frames(h, m - |streams| + 2) + k]
  {
    FramesAdd(h, m - |streams| + 2, |streams| - 1);
  }

  lemma InnermostTail(r: Recipe, inner: Layered, j: nat)
    requires r.Valid() && |inner.buffer| == r.Size()
    requires Frames(r.h, r.m - |r.streams| + 1) <= j < r.Size()
    ensures Wrap(r, |r.streams| - 1, inner)[j] == FillerBuffer(r.h, r.m, r.streams, |r.streams| - 1)[j + r.h]
  {
    hide Wrap, Filler, FillerBuffer;
    var n := |r.streams|;
    FramesAdd(r.h, r.m - n + 1, n - 1);
    var k := j - Frames(r.h, r.m - n + 1);
    WrapTail(r, inner, k);
    FillerByte(r.h, r.m, r.streams, k);
  }

  /** Masking twice with the same stream byte undoes itself, so the inner filler tail turns into the outer one. */
  lemma TailStep(r: Recipe, i: nat, outer: byte, inner: byte, j: nat)
    requires r.Valid() && i < |r.streams| && j < r.Size()
    requires inner == FillerBuffer(r.h, r.m, r.streams, i + 1)[j]
    requires outer == Xor(inner, r.streams[i](j))
    ensures outer == FillerBuffer(r.h, r.m, r.streams, i)[j + r.h]
  {
    FillerStep(r.h, r.m, r.streams, i, j);
    XorCancel(FillerBuffer(r.h, r.m, r.streams, i)[j + r.h], r.streams[i](j));
  }

  /** The last `i` frames of layer `i` are the last `i` frames of the filler after `i` steps. */
  lemma {:induction false} LayerTail(r: Recipe, i: nat, j: nat)
    requires r.Valid() && i < |r.streams| && Frames(r.h, r.m - i) <= j < r.Size()
    ensures Layer(r, i).buffer[j] == FillerBuffer(r.h, r.m, r.streams, i)[j + r.h]
    decreases |r.streams| - i
  {
    var inner := Inner(r, i);
    if i == |r.streams| - 1 {
      InnermostTail(r, inner, j);
    } else {
      LayerTail(r, i + 1, j - r.h);
      WrapByte(r, i, inner, j);
      TailStep(r, i, Layer(r, i).buffer[j], inner.buffer[j - r.h], j);
    }
  }

  /** What a hop sees after extending its buffer with zeros and removing its mask. */
  function Unmasked(r: Recipe, i: nat): (u: bytes)
    requires r.Valid() && i < |r.streams|
    ensures |u| == 2 * r.Size()
  {
    Mask(Layer(r, i).buffer + Zeros(r.Size()), r.streams[i])
  }

  /** Hop `i` reads exactly its own frame. */
  lemma PeelFrame(r: Recipe, i: nat)
    requires r.Valid() && i < |r.streams|
    ensures r.h <= r.Size()
    ensures Unmasked(r, i)[..r.h] == r.heads[i] + Inner(r, i).mac
  {
    FrameFits(r);
    var inner := Inner(r, i);
    var frame, seen := r.heads[i] + inner.mac, Unmasked(r, i)[..r.h];
    forall j | 0 <= j < r.h
      ensures seen[j] == frame[j]
    {
      WrapFrame(r, i, inner, j);
      XorCancel(frame[j], r.streams[i](j));
    }
  }

  lemma PeelByte(r: Recipe, i: nat, j: nat)
    requires r.Valid() && i + 1 < |r.streams| && j < r.Size() && r.h <= r.Size()
    ensures Unmasked(r, i)[r.h + j] == Layer(r, i + 1).buffer[j]
  {
    var h, s := r.h, r.streams[i](r.h + j);
    if h + j < r.Size() {
      WrapByte(r, i, Inner(r, i), h + j);
      XorCancel(Layer(r, i + 1).buffer[j], s);
    } else {
      PeelLastFrame(r, i, j);
    }
  }

  /** The zeros a hop appends unmask to the last frame of the next layer. */
  lemma PeelLastFrame(r: Recipe, i: nat, j: nat)
    requires r.Valid() && i + 1 < |r.streams| && r.h <= r.Size() && r.Size() - r.h <= j < r.Size()
    ensures Layer(r, i + 1).buffer[j] == Xor(0, r.streams[i](r.h + j))
  {
    hide Layer, FillerBuffer, Xor;
    FramesAdd(r.h, r.m - i - 1, i + 1);
    LayerTail(r, i + 1, j);
    FillerStep(r.h, r.m, r.streams, i, r.h + j);
  }

  /** Behind its frame, a forwarding hop finds byte for byte the buffer the sender authenticated for the next hop. */
  lemma PeelRest(r: Recipe, i: nat)
    requires r.Valid() && i + 1 < |r.streams|
    ensures r.h <= r.Size()
    ensures Unmasked(r, i)[r.h..r.h + r.Size()] == Layer(r, i + 1).buffer
  {
    FrameFits(r);
    var seen, next := Unmasked(r, i)[r.h..r.h + r.Size()], Layer(r, i + 1).buffer;
    forall j | 0 <= j < r.Size()
      ensures seen[j] == next[j]
    {
      PeelByte(r, i, j);
    }
  }
}
