/** The sender's loops over mutable buffers (protocols/sphinx.py), proved against the layered definition. */
module SphinxSender {
  import opened Bytes
  import opened Curve
  import opened OnionLayers
  import opened Sphinx

  /** `buffer ^= stream`, in place. */
  method MaskInPlace(buffer: array<byte>, stream: Stream)
    modifies buffer
    ensures buffer[..] == Mask(old(buffer[..]), stream)
  {
    forall j | 0 <= j < buffer.Length {
      buffer[j] := Xor(buffer[j], stream(j));
    }
  }

  method ShiftLeft(buffer: array<byte>)
    requires FRAME <= buffer.Length
    modifies buffer
    ensures buffer[..] == old(buffer[..])[FRAME..] + Zeros(FRAME)
  {
    forall j | 0 <= j < buffer.Length - FRAME {
      buffer[j] := buffer[j + FRAME];
    }
    forall j | buffer.Length - FRAME <= j < buffer.Length {
      buffer[j] := 0;
    }
  }

  method PrependFrame(buffer: array<byte>, frame: bytes)
    requires |frame| == FRAME <= buffer.Length
    modifies buffer
    ensures buffer[..] == frame + old(buffer[..])[..buffer.Length - FRAME]
  {
    forall j | FRAME <= j < buffer.Length {
      buffer[j] := buffer[j - FRAME];
    }
    forall j | 0 <= j < FRAME {
      buffer[j] := frame[j];
    }
  }

  method OverwriteTail(buffer: array<byte>, tail: bytes)
    requires |tail| <= buffer.Length
    modifies buffer
    ensures buffer[..] == old(buffer[..])[..buffer.Length - |tail|] + tail
  {
    forall k | buffer.Length - |tail| <= k < buffer.Length {
      buffer[k] := tail[k - (buffer.Length - |tail|)];
    }
  }

  function Streams(c: Crypto, secrets: seq<Digest>): (streams: seq<Stream>)
    ensures |streams| == |secrets|
  {
    seq(|secrets|, i requires 0 <= i < |secrets| => RhoStream(c, secrets[i]))
  }

  /** `f[start:]`: a negative start counts from the end. */
  function SliceFrom(f: bytes, start: int): (s: bytes)
    ensures 0 <= start <= |f| ==> s == f[start..]
  {
    if start >= |f| then [] else if start >= 0 then f[start..] else if start >= -|f| then f[|f| + start..] else f
  }

  /** The filler for any number of hops. */
  function AnyFiller(streams: seq<Stream>): (filler: bytes) {
    var n := |streams|;
    SliceFrom(FillerBuffer(FRAME, MAX_HOPS, streams, if n == 0 then 0 else n - 1), (MAX_HOPS - n + 2) * FRAME)
  }

  /** For up to 20 hops it is the tail that the innermost layer carries. */
  lemma FillerForRoutes(streams: seq<Stream>)
    requires 1 <= |streams| <= MAX_HOPS
    ensures AnyFiller(streams) == Filler(FRAME, MAX_HOPS, streams)
  {
    hide FillerBuffer;
    FrameSizes(21);
    FrameSizes(MAX_HOPS - |streams| + 2);
  }

  /** `_generate_bolt4_filler`. */
  method GenerateFiller(c: Crypto, secrets: seq<Digest>) returns (filler: bytes)
    ensures filler == AnyFiller(Streams(c, secrets))
    ensures 1 <= |secrets| <= MAX_HOPS ==> filler == Filler(FRAME, MAX_HOPS, Streams(c, secrets))
  {
    hide Xor, RhoStream;
    FrameSizes(21);
    var size := (MAX_HOPS + 1) * FRAME;
    var buffer := new byte[size](_ => 0);
    ghost var streams := Streams(c, secrets);
    assert buffer[..] == Zeros(size);
    var steps := if |secrets| == 0 then 0 else |secrets| - 1;
    for i := 0 to steps
      invariant buffer[..] == FillerBuffer(FRAME, MAX_HOPS, streams, i)
    {
      ShiftLeft(buffer);
      MaskInPlace(buffer, RhoStream(c, secrets[i]));
    }
    hide FillerBuffer;
    filler := SliceFrom(buffer[..], (MAX_HOPS - |secrets| + 2) * FRAME);
    if 1 <= |secrets| <= MAX_HOPS {
      FillerForRoutes(streams);
    }
  }

  /** The keys of a route when those of a prefix are known and the rest is still to be derived. */
  ghost function Resumed(c: Crypto, done: seq<HopKey>, rest: seq<Hop>, d: nat, ephemeral: bytes): (keys: Option<seq<HopKey>>) {
    match ForwardKeys(c, rest, d, ephemeral)
    case None => None
    case Some(tail) => Some(done + tail)
  }

  lemma ResumedStep(c: Crypto, done: seq<HopKey>, rest: seq<Hop>, d: nat, ephemeral: bytes)
    requires rest != []
    ensures Resumed(c, done, rest, d, ephemeral) ==
      match ScalarMulPoint(c.group, d, rest[0].pubkey)
      case None => None
      case Some(point) =>
        var secret := c.sha256(point);
        var next := (d * Blinding(c, ephemeral, secret)) % c.group.order;
        Resumed(c, done + [HopKey(ephemeral, secret)], rest[1..], next, PointMul(c.group, next))
  {
    var point := ScalarMulPoint(c.group, d, rest[0].pubkey);
    if point.Some? {
      var secret := c.sha256(point.value);
      var next := (d * Blinding(c, ephemeral, secret)) % c.group.order;
      var tail := ForwardKeys(c, rest[1..], next, PointMul(c.group, next));
      if tail.Some? {
        var key := [HopKey(ephemeral, secret)];
        assert done + (key + tail.value) == (done + key) + tail.value;
      }
    }
  }

  /** The forward pass: shared secrets and blinded keys. */
  method DeriveKeys(c: Crypto, hops: seq<Hop>, session: Digest) returns (keys: Option<seq<HopKey>>)
    ensures keys == RouteKeys(c, hops, session)
  {
    hide ForwardKeys, Blinding, ScalarMulPoint, PointMul;
    var d: nat := SessionScalar(c, session);
    var ephemeral := PointMul(c.group, d);
    var done: seq<HopKey> := [];
    StartsResumed(c, hops, session);
    for i := 0 to |hops|
      invariant RouteKeys(c, hops, session) == Resumed(c, done, hops[i..], d, ephemeral)
    {
      ResumedStep(c, done, hops[i..], d, ephemeral);
      assert hops[i..][0] == hops[i] && hops[i..][1..] == hops[i + 1..];
      var point := ScalarMulPoint(c.group, d, hops[i].pubkey);
      if point.None? {
        return None;
      }
      var secret := c.sha256(point.value);
      done := done + [HopKey(ephemeral, secret)];
      d := (d * Blinding(c, ephemeral, secret)) % c.group.order;
      ephemeral := PointMul(c.group, d);
    }
    EndsResumed(c, done, d, ephemeral);
    return Some(done);
  }

  lemma StartsResumed(c: Crypto, hops: seq<Hop>, session: Digest)
    ensures var d := SessionScalar(c, session);
      RouteKeys(c, hops, session) == Resumed(c, [], hops[0..], d, PointMul(c.group, d))
  {
    var keys := RouteKeys(c, hops, session);
    assert hops[0..] == hops;
    assert keys.Some? ==> [] + keys.value == keys.value;
  }

  lemma EndsResumed(c: Crypto, done: seq<HopKey>, d: nat, ephemeral: bytes)
    ensures Resumed(c, done, [], d, ephemeral) == Some(done)
  {
    assert done + [] == done;
  }

  /** The buffer after wrapping one hop; `tail` is empty except at the innermost one. */
  function WrapBytes(c: Crypto, hop: Hop, secret: Digest, mac: Digest, inner: bytes, tail: bytes): (buffer: bytes)
    requires FieldsFit(hop) && |inner| == ROUTING && |tail| <= ROUTING
    ensures |buffer| == ROUTING
  {
    var masked := Mask(FrameHead(hop) + mac + inner[..ROUTING - FRAME], RhoStream(c, secret));
    masked[..ROUTING - |tail|] + tail
  }

  method WrapInPlace(c: Crypto, hop: Hop, secret: Digest, mac: Digest, mix: array<byte>, tail: bytes)
    requires FieldsFit(hop) && mix.Length == ROUTING && |tail| <= ROUTING
    modifies mix
    ensures mix[..] == WrapBytes(c, hop, secret, mac, old(mix[..]), tail)
  {
    PrependFrame(mix, FrameHead(hop) + mac);
    MaskInPlace(mix, RhoStream(c, secret));
    if |tail| > 0 {
      OverwriteTail(mix, tail);
    }
  }

  /** The buffer and MAC after wrapping the hops from `i` on. */
  ghost function Built(c: Crypto, hops: seq<Hop>, keys: seq<HopKey>, session: Digest, i: nat): (l: Layered)
    requires 1 <= |hops| == |keys| <= MAX_HOPS && AllFit(hops) && i <= |hops|
    ensures |l.buffer| == ROUTING
  {
    RecipeValid(c, hops, keys, session);
    var r := MakeRecipe(c, hops, keys, session);
    if i == |hops| then Layered(r.pad, ZERO_MAC) else Layer(r, i)
  }

  function Secrets(keys: seq<HopKey>): (secrets: seq<Digest>)
    ensures |secrets| == |keys|
  {
    seq(|keys|, i requires 0 <= i < |keys| => keys[i].secret)
  }

  lemma FillerFits(c: Crypto, secrets: seq<Digest>)
    requires 1 <= |secrets| <= MAX_HOPS
    ensures |Filler(FRAME, MAX_HOPS, Streams(c, secrets))| <= ROUTING - FRAME
  {
    FrameSizes(|secrets| - 1);
  }

  lemma BuiltStep(c: Crypto, hops: seq<Hop>, keys: seq<HopKey>, session: Digest, i: nat)
    requires 1 <= |hops| == |keys| <= MAX_HOPS && AllFit(hops) && i < |hops|
    ensures var inner, secrets := Built(c, hops, keys, session, i + 1), Secrets(keys);
      var filler := Filler(FRAME, MAX_HOPS, Streams(c, secrets));
      var tail := if i == |hops| - 1 then filler else [];
      && |tail| <= ROUTING
      && var buffer := WrapBytes(c, hops[i], secrets[i], inner.mac, inner.buffer, tail);
      Built(c, hops, keys, session, i) == Layered(buffer, MuMac(c, secrets[i])(buffer))
  {
    RecipeValid(c, hops, keys, session);
    FillerFits(c, Secrets(keys));
    var r := MakeRecipe(c, hops, keys, session);
    var inner := Built(c, hops, keys, session, i + 1);
    assert inner == Inner(r, i);
    assert Streams(c, Secrets(keys)) == r.streams;
    var masked := Mask(r.heads[i] + inner.mac + inner.buffer[..ROUTING - FRAME], r.streams[i]);
    assert masked[..ROUTING] + [] == masked;
  }

  lemma BuiltEnds(c: Crypto, hops: seq<Hop>, session: Digest)
    requires 1 <= |hops| <= MAX_HOPS && RouteKeys(c, hops, session).Some?
    ensures BuiltPacket(c, hops, session).Some? <==> AllFit(hops)
    ensures AllFit(hops) ==>
      var keys := RouteKeys(c, hops, session).value;
      var first := Built(c, hops, keys, session, 0);
      && Built(c, hops, keys, session, |hops|) == Layered(Mask(Zeros(ROUTING), c.chacha20(c.sha256(PAD + session))), ZERO_MAC)
      && BuiltPacket(c, hops, session).value == Packet(0, keys[0].ephemeral, first.buffer, first.mac)
  {
  }

  /** `create_bolt4_binary_packet`. */
  method CreatePacket(c: Crypto, hops: seq<Hop>, session: Digest) returns (packet: Option<Packet>)
    requires |hops| <= MAX_HOPS
    ensures packet == BuiltPacket(c, hops, session)
  {
    hide Built, WrapBytes, Filler, MuMac, RouteKeys, FillerBuffer, Xor;
    var n := |hops|;
    var derived := DeriveKeys(c, hops, session);
    if derived.None? || n == 0 {
      return None;
    }
    var keys := derived.value;
    var secrets := Secrets(keys);
    var filler := GenerateFiller(c, secrets);
    FillerFits(c, secrets);
    var mix := new byte[ROUTING](_ => 0);
    assert mix[..] == Zeros(ROUTING);
    MaskInPlace(mix, c.chacha20(c.sha256(PAD + session)));
    var mac := ZERO_MAC;
    BuiltEnds(c, hops, session);
    for i := n downto 0
      invariant forall j :: i <= j < n ==> FieldsFit(hops[j])
      invariant AllFit(hops) ==> Built(c, hops, keys, session, i) == Layered(mix[..], mac)
    {
      if !FieldsFit(hops[i]) {
        return None;
      }
      if AllFit(hops) {
        BuiltStep(c, hops, keys, session, i);
      }
      WrapInPlace(c, hops[i], secrets[i], mac, mix, if i == n - 1 then filler else []);
      mac := MuMac(c, secrets[i])(mix[..]);
    }
    return Some(Packet(0, keys[0].ephemeral, mix[..], mac));
  }
}
