/** BOLT #4 binary onion packets (protocols/sphinx.py). */
module Sphinx {
  import opened Bytes
  import opened Numbers
  import opened Curve
  import opened OnionLayers

  const FRAME: nat := 65
  const MAX_HOPS: nat := 20
  const ROUTING: nat := 1300

  const RHO: bytes := [114, 104, 111]
  const MU: bytes := [109, 117]
  const PAD: bytes := [112, 97, 100]

  /** The primitives a packet is built from. */
  datatype Crypto = Crypto(group: Group, sha256: bytes -> Digest, hmac: (bytes, bytes) -> Digest, chacha20: bytes -> Stream)

  datatype Packet = Packet(version: byte, ephemeral: bytes, routing: bytes, mac: bytes)

  /** One hop as the sender sees it. Names are UTF-8 encoded. */
  datatype Hop = Hop(pubkey: bytes, nextHop: bytes, amount: int, cltv: int)

  datatype Payload = Payload(nextHop: bytes, amount: nat, cltv: nat)

  function Slice(b: bytes, lo: nat, hi: nat): (s: bytes)
    requires lo <= hi
    ensures |s| == if |b| <= lo then 0 else if |b| <= hi then |b| - lo else hi - lo
  {
    if |b| <= lo then [] else if |b| <= hi then b[lo..] else b[lo..hi]
  }

  // ----- the wire format

  /** `to_binary`. */
  function ToBinary(p: Packet): (b: bytes) {
    [p.version] + p.ephemeral + p.routing + p.mac
  }

  /** `from_binary`: None stands for the ValueError. */
  function FromBinary(data: bytes): (p: Option<Packet>) {
    if |data| != 1366 then None
    else Some(Packet(data[0], data[1..34], data[34..1334], data[1334..1366]))
  }

  predicate StandardSizes(p: Packet) {
    |p.ephemeral| == 33 && |p.routing| == ROUTING && |p.mac| == 32
  }

  /** A packet survives the wire exactly when its fields have their standard sizes. */
  lemma WireRoundTrip(p: Packet)
    ensures FromBinary(ToBinary(p)) == Some(p) <==> StandardSizes(p)
  {
    var data := ToBinary(p);
    if StandardSizes(p) {
      assert data[1..34] == p.ephemeral;
      assert data[34..1334] == p.routing;
      assert data[1334..1366] == p.mac;
    }
  }

  /** Where each field of a standard packet stands on the wire. */
  lemma WireLayout(p: Packet, i: nat)
    requires StandardSizes(p) && i < 1366
    ensures |ToBinary(p)| == 1366
    ensures ToBinary(p)[i] ==
      if i == 0 then p.version else if i < 34 then p.ephemeral[i - 1] else if i < 1334 then p.routing[i - 34] else p.mac[i - 1334]
  {
  }

  /** Every 1366-byte string is the encoding of the packet it parses to. */
  lemma WireCanonical(data: bytes)
    ensures FromBinary(data).Some? <==> |data| == 1366
    ensures FromBinary(data).Some? ==> StandardSizes(FromBinary(data).value) && ToBinary(FromBinary(data).value) == data
  {
    if |data| == 1366 {
      assert data == [data[0]] + data[1..34] + data[34..1334] + data[1334..1366];
    }
  }

  // ----- the 65-byte frame

  /** `name[:16].ljust(16, 0)`. */
  function PadName(name: bytes): (field: bytes)
    ensures |field| == 16
  {
    var kept := if |name| <= 16 then name else name[..16];
    kept + Zeros(16 - |kept|)
  }

  /** `rstrip(0)`. */
  function StripZeros(b: bytes): (name: bytes) {
    if b != [] && b[|b| - 1] == 0 then StripZeros(b[..|b| - 1]) else b
  }

  // ----- UTF-8

  predicate Continues(b: bytes, i: nat) {
    i < |b| && 0x80 <= b[i] < 0xC0
  }

  /** The length of the first encoded character, 0 when there is none: no overlong forms, no surrogates, nothing past U+10FFFF. */
  function CharLength(b: bytes): (k: nat)
    ensures k <= |b|
  {
    if b == [] then 0
    else if b[0] < 0x80 then 1
    else if 0xC2 <= b[0] < 0xE0 && Continues(b, 1) then 2
    else if 0xE0 <= b[0] < 0xF0 && Continues(b, 1) && Continues(b, 2)
      && (b[0] == 0xE0 ==> b[1] >= 0xA0) && (b[0] == 0xED ==> b[1] < 0xA0) then 3
    else if 0xF0 <= b[0] < 0xF5 && Continues(b, 1) && Continues(b, 2) && Continues(b, 3)
      && (b[0] == 0xF0 ==> b[1] >= 0x90) && (b[0] == 0xF4 ==> b[1] < 0x90) then 4
    else 0
  }

  /** `b.decode("utf-8")` succeeds. */
  predicate IsUtf8(b: bytes)
    decreases |b|
  {
    b == [] || (CharLength(b) > 0 && IsUtf8(b[CharLength(b)..]))
  }

  predicate ScalarValue(code: nat) {
    code < 0x110000 && !(0xD800 <= code < 0xE000)
  }

  /** The UTF-8 form of one code point. */
  function EncodeChar(code: nat): (b: bytes)
    requires ScalarValue(code)
  {
    if code < 0x80 then [code as byte]
    else if code < 0x800 then [(0xC0 + code / 64) as byte, Continuation(code)]
    else if code < 0x1_0000 then [(0xE0 + code / 64 / 64) as byte, Continuation(code / 64), Continuation(code)]
    else [(0xF0 + code / 64 / 64 / 64) as byte, Continuation(code / 64 / 64), Continuation(code / 64), Continuation(code)]
  }

  /** A continuation byte carries six bits. */
  function Continuation(bits: nat): (b: byte) {
    (0x80 + bits % 64) as byte
  }

  function EncodeText(text: seq<nat>): (b: bytes)
    requires forall i :: 0 <= i < |text| ==> ScalarValue(text[i])
  {
    if text == [] then [] else EncodeChar(text[0]) + EncodeText(text[1..])
  }

  lemma EncodedLength(code: nat, rest: bytes)
    requires ScalarValue(code)
    ensures CharLength(EncodeChar(code) + rest) == |EncodeChar(code)| > 0
  {
  }

  lemma SixBits(high: nat, b: byte)
    requires 0x80 <= b < 0xC0
    ensures var code := high * 64 + (b as nat - 0x80);
      code / 64 == high && Continuation(code) == b
  {
  }

  lemma DecodeChar(b: bytes) returns (code: nat)
    requires CharLength(b) > 0
    ensures ScalarValue(code) && EncodeChar(code) == b[..CharLength(b)]
  {
    hide Continuation;
    var k := CharLength(b);
    if k == 1 {
      code := b[0] as nat;
    } else if k == 2 {
      var high := b[0] as nat - 0xC0;
      code := high * 64 + (b[1] as nat - 0x80);
      SixBits(high, b[1]);
    } else if k == 3 {
      var high := b[0] as nat - 0xE0;
      var middle := high * 64 + (b[1] as nat - 0x80);
      code := middle * 64 + (b[2] as nat - 0x80);
      SixBits(high, b[1]);
      SixBits(middle, b[2]);
    } else {
      var high := b[0] as nat - 0xF0;
      var upper := high * 64 + (b[1] as nat - 0x80);
      var middle := upper * 64 + (b[2] as nat - 0x80);
      code := middle * 64 + (b[3] as nat - 0x80);
      SixBits(high, b[1]);
      SixBits(upper, b[2]);
      SixBits(middle, b[3]);
    }
  }

  lemma {:induction false} EncodedIsUtf8(text: seq<nat>)
    requires forall i :: 0 <= i < |text| ==> ScalarValue(text[i])
    ensures IsUtf8(EncodeText(text))
  {
    hide CharLength, EncodeChar;
    if text != [] {
      EncodedIsUtf8(text[1..]);
      EncodedLength(text[0], EncodeText(text[1..]));
      var k := |EncodeChar(text[0])|;
      assert EncodeText(text)[k..] == EncodeText(text[1..]);
    }
  }

  lemma {:induction false} DecodeText(b: bytes) returns (text: seq<nat>)
    requires IsUtf8(b)
    ensures forall i :: 0 <= i < |text| ==> ScalarValue(text[i])
    ensures EncodeText(text) == b
    decreases |b|
  {
    hide CharLength, EncodeChar;
    if b == [] {
      text := [];
    } else {
      var k := CharLength(b);
      var code := DecodeChar(b);
      var rest := DecodeText(b[k..]);
      text := [code] + rest;
      assert text[1..] == rest && b == b[..k] + b[k..];
    }
  }

  /** The byte strings that decode are exactly the encodings of texts of Unicode scalar values. */
  lemma Utf8Exactly(b: bytes)
    ensures IsUtf8(b) <==> exists text :: (forall i :: 0 <= i < |text| ==> ScalarValue(text[i])) && EncodeText(text) == b
  {
    if IsUtf8(b) {
      var text := DecodeText(b);
    }
    forall text: seq<nat> | (forall i :: 0 <= i < |text| ==> ScalarValue(text[i])) && EncodeText(text) == b
      ensures IsUtf8(b)
    {
      EncodedIsUtf8(text);
    }
  }

  lemma ShorterChar(b: bytes)
    requires b != [] && b[|b| - 1] == 0 && CharLength(b) > 0
    ensures CharLength(b) == |b| ==> |b| == 1
    ensures CharLength(b) < |b| ==> CharLength(b[..|b| - 1]) == CharLength(b)
  {
  }

  /** A final zero byte is a character of its own. */
  lemma {:induction false} Utf8WithoutLast(b: bytes)
    requires b != [] && b[|b| - 1] == 0 && IsUtf8(b)
    ensures IsUtf8(b[..|b| - 1])
    decreases |b|
  {
    hide CharLength;
    var k, front := CharLength(b), b[..|b| - 1];
    ShorterChar(b);
    if k < |b| {
      Utf8WithoutLast(b[k..]);
      assert front[k..] == b[k..][..|b| - k - 1];
    }
  }

  lemma {:induction false} StripKeepsUtf8(b: bytes)
    requires IsUtf8(b)
    ensures IsUtf8(StripZeros(b))
  {
    hide IsUtf8;
    if b != [] && b[|b| - 1] == 0 {
      Utf8WithoutLast(b);
      StripKeepsUtf8(b[..|b| - 1]);
    }
  }

  /** A name that fits its field can always be decoded; cutting a longer one can split a character. */
  lemma NameDecodes(name: bytes)
    requires IsUtf8(name) && |name| <= 16
    ensures IsUtf8(StripZeros(PadName(name)))
  {
    StripPadding(name, 16 - |name|);
    StripKeepsUtf8(name);
  }

  lemma {:induction false} AfterLetters(k: nat, rest: bytes)
    ensures IsUtf8(Letters(k) + rest) <==> IsUtf8(rest)
  {
    if k == 0 {
      assert Letters(0) + rest == rest;
    } else {
      assert (Letters(k) + rest)[1..] == Letters(k - 1) + rest;
      AfterLetters(k - 1, rest);
    }
  }

  /** `"a" * k`. */
  function Letters(k: nat): (b: bytes)
    ensures |b| == k
  {
    seq(k, _ => 97)
  }

  /** Fifteen letters and an accented one: a valid name whose 16-byte field no longer decodes. */
  lemma CutCharacter()
    ensures var name := Letters(15) + [0xC3, 0xA9];
      IsUtf8(name) && !IsUtf8(StripZeros(PadName(name)))
  {
    var name := Letters(15) + [0xC3, 0xA9];
    AfterLetters(15, [0xC3, 0xA9]);
    AfterLetters(15, [0xC3]);
    var field := PadName(name);
    assert field == Letters(15) + [0xC3];
    assert [0xC3 as byte, 0xA9][2..] == [];
  }

  predicate NoTrailingZero(name: bytes) {
    name == [] || name[|name| - 1] != 0
  }

  lemma {:induction false} StripPadding(b: bytes, k: nat)
    ensures StripZeros(b + Zeros(k)) == StripZeros(b)
  {
    if k > 0 {
      assert (b + Zeros(k))[..|b| + k - 1] == b + Zeros(k - 1);
      StripPadding(b, k - 1);
    } else {
      assert b + Zeros(0) == b;
    }
  }

  lemma {:induction false} StripIsPrefix(b: bytes)
    ensures StripZeros(b) <= b
    ensures StripZeros(b) == b <==> NoTrailingZero(b)
    ensures NoTrailingZero(StripZeros(b)) && b == StripZeros(b) + Zeros(|b| - |StripZeros(b)|)
  {
    if b != [] && b[|b| - 1] == 0 {
      StripIsPrefix(b[..|b| - 1]);
    }
  }

  /** A next-hop name comes back unchanged exactly when it fits its field and does not end in a zero byte. */
  lemma NameRoundTrip(name: bytes)
    ensures StripZeros(PadName(name)) == name <==> |name| <= 16 && NoTrailingZero(name)
  {
    StripIsPrefix(PadName(name));
    if |name| <= 16 {
      StripPadding(name, 16 - |name|);
      StripIsPrefix(name);
    }
  }

  predicate FieldsFit(hop: Hop) {
    0 <= hop.amount < ByteRange(8) && 0 <= hop.cltv < ByteRange(4)
  }

  /** The 33 bytes of a frame in front of the next MAC: realm, name, amount, expiry, padding. */
  function FrameHead(hop: Hop): (head: bytes)
    requires FieldsFit(hop)
    ensures |head| == 33
  {
    [0] + PadName(hop.nextHop) + ToBigEndian(hop.amount, 8) + ToBigEndian(hop.cltv, 4) + Zeros(4)
  }

  function ReadPayload(frame: bytes): (p: Payload)
    requires |frame| == FRAME
  {
    Payload(StripZeros(frame[1..17]), FromBigEndian(frame[17..25]), FromBigEndian(frame[25..29]))
  }

  /** What a hop can recover: its name as the 16-byte field delivers it, and both integers exactly. */
  function Delivered(hop: Hop): (p: Payload)
    requires FieldsFit(hop)
  {
    Payload(StripZeros(PadName(hop.nextHop)), hop.amount, hop.cltv)
  }

  /** Where each field stands in the 65 bytes: realm 0, the name cut and filled up to 16 bytes, amount and expiry big-endian,
      four zeros, the next MAC. */
  lemma FrameLayout(hop: Hop, mac: Digest, i: nat)
    requires FieldsFit(hop) && i < 65
    ensures |FrameHead(hop) + mac| == 65
    ensures var b := (FrameHead(hop) + mac)[i];
      && (i == 0 || 29 <= i < 33 ==> b == 0)
      && (1 <= i < 17 ==> b == if i - 1 < |hop.nextHop| then hop.nextHop[i - 1] else 0)
      && (33 <= i ==> b == mac[i - 33])
    ensures FromBigEndian((FrameHead(hop) + mac)[17..25]) == hop.amount
    ensures FromBigEndian((FrameHead(hop) + mac)[25..29]) == hop.cltv
  {
    var frame := FrameHead(hop) + mac;
    assert frame[17..25] == ToBigEndian(hop.amount, 8);
    assert frame[25..29] == ToBigEndian(hop.cltv, 4);
    BigEndianRoundTrip(hop.amount, 8);
    BigEndianRoundTrip(hop.cltv, 4);
    if 1 <= i < 17 {
      assert frame[i] == PadName(hop.nextHop)[i - 1];
    }
  }

  lemma FrameRoundTrip(hop: Hop, mac: Digest)
    requires FieldsFit(hop)
    ensures ReadPayload(FrameHead(hop) + mac) == Delivered(hop)
    ensures (FrameHead(hop) + mac)[33..65] == mac
  {
    var frame := FrameHead(hop) + mac;
    assert frame[1..17] == PadName(hop.nextHop);
    assert frame[17..25] == ToBigEndian(hop.amount, 8);
    assert frame[25..29] == ToBigEndian(hop.cltv, 4);
    assert frame[33..65] == mac;
    BigEndianRoundTrip(hop.amount, 8);
    BigEndianRoundTrip(hop.cltv, 4);
  }

  // ----- keys

  function Blinding(c: Crypto, ephemeral: bytes, secret: Digest): (b: nat)
    ensures 0 < b
    ensures c.group.order >= 2 ==> b < c.group.order
  {
    Normalise(c.group, FromBigEndian(c.sha256(ephemeral + secret)))
  }

  function RhoStream(c: Crypto, secret: Digest): (s: Stream) {
    c.chacha20(c.sha256(RHO + secret))
  }

  function MuMac(c: Crypto, secret: Digest): (mac: bytes -> Digest) {
    var key := c.sha256(MU + secret);
    (message: bytes) => c.hmac(key, message)
  }

  datatype HopKey = HopKey(ephemeral: bytes, secret: Digest)

  /** The sender's forward pass: per hop the blinded ephemeral key and the shared secret. None: a key does not parse. */
  function ForwardKeys(c: Crypto, hops: seq<Hop>, d: nat, ephemeral: bytes): (keys: Option<seq<HopKey>>)
    ensures keys.Some? ==> |keys.value| == |hops|
  {
    if hops == [] then Some([])
    else
      match ScalarMulPoint(c.group, d, hops[0].pubkey)
      case None => None
      case Some(point) =>
        var secret := c.sha256(point);
        var next := (d * Blinding(c, ephemeral, secret)) % c.group.order;
        match ForwardKeys(c, hops[1..], next, PointMul(c.group, next))
        case None => None
        case Some(rest) => Some([HopKey(ephemeral, secret)] + rest)
  }

  // ----- building a packet

  function MakeRecipe(c: Crypto, hops: seq<Hop>, keys: seq<HopKey>, session: Digest): (r: Recipe)
    requires |keys| == |hops| && forall i :: 0 <= i < |hops| ==> FieldsFit(hops[i])
  {
    Recipe(
      FRAME, MAX_HOPS,
      seq(|keys|, i requires 0 <= i < |keys| => RhoStream(c, keys[i].secret)),
      seq(|hops|, i requires 0 <= i < |hops| => FrameHead(hops[i])),
      seq(|keys|, i requires 0 <= i < |keys| => MuMac(c, keys[i].secret)),
      Mask(Zeros(ROUTING), c.chacha20(c.sha256(PAD + session))))
  }

  lemma RecipeValid(c: Crypto, hops: seq<Hop>, keys: seq<HopKey>, session: Digest)
    requires |keys| == |hops| && forall i :: 0 <= i < |hops| ==> FieldsFit(hops[i])
    requires 1 <= |hops| <= MAX_HOPS
    ensures MakeRecipe(c, hops, keys, session).Valid()
    ensures MakeRecipe(c, hops, keys, session).Size() == ROUTING
  {
    FrameSizes(20);
  }

  lemma {:induction false} FrameSizes(k: nat)
    ensures Frames(FRAME, k) == 65 * k
  {
    if k > 0 {
      FrameSizes(k - 1);
    }
  }

  function SessionScalar(c: Crypto, session: Digest): (d: nat) {
    FromBigEndian(session) % c.group.order
  }

  /** The keys of a whole route, from the session key. */
  function RouteKeys(c: Crypto, hops: seq<Hop>, session: Digest): (keys: Option<seq<HopKey>>)
    ensures keys.Some? ==> |keys.value| == |hops|
  {
    var d := SessionScalar(c, session);
    ForwardKeys(c, hops, d, PointMul(c.group, d))
  }

  predicate AllFit(hops: seq<Hop>) {
    forall i :: 0 <= i < |hops| ==> FieldsFit(hops[i])
  }

  /** The packet that hop `i` receives. */
  function PacketAt(c: Crypto, hops: seq<Hop>, keys: seq<HopKey>, session: Digest, i: nat): (p: Packet)
    requires i < |hops| == |keys| <= MAX_HOPS && AllFit(hops)
    ensures |p.routing| == ROUTING
  {
    RecipeValid(c, hops, keys, session);
    var layer := Layer(MakeRecipe(c, hops, keys, session), i);
    Packet(0, keys[i].ephemeral, layer.buffer, layer.mac)
  }

  /** `create_bolt4_binary_packet`: None stands for an exception (no hops, an unparsable key, a field overflow). */
  function BuiltPacket(c: Crypto, hops: seq<Hop>, session: Digest): (p: Option<Packet>)
    requires |hops| <= MAX_HOPS
  {
    var keys := RouteKeys(c, hops, session);
    if keys.None? || hops == [] || !AllFit(hops) then None
    else Some(PacketAt(c, hops, keys.value, session, 0))
  }

  // ----- unwrapping

  /** The routing bytes, extended by 1300 zeros, under the hop's 2600-byte key stream. */
  function Deobfuscated(c: Crypto, p: Packet, secret: Digest): (u: bytes)
    ensures |u| >= ROUTING
  {
    Mask(Slice(p.routing + Zeros(ROUTING), 0, 2 * ROUTING), RhoStream(c, secret))
  }

  /** Reads the frame and prepares the packet for the next hop; no packet when the frame names no next hop. None: the name
      does not decode. */
  function OpenFrame(c: Crypto, ephemeral: bytes, secret: Digest, unwrapped: bytes): (r: Option<(Payload, Option<Packet>)>)
    requires |unwrapped| >= ROUTING
  {
    var frame := unwrapped[..FRAME];
    var payload, nextMac := ReadPayload(frame), frame[33..65];
    if !IsUtf8(payload.nextHop) then None
    else if payload.nextHop == [] || nextMac == ZERO_MAC then Some((payload, None))
    else
      match ScalarMulPoint(c.group, Blinding(c, ephemeral, secret), ephemeral)
      case None => None
      case Some(next) => Some((payload, Some(Packet(0, next, Slice(unwrapped, FRAME, FRAME + ROUTING), nextMac))))
  }

  /** `unwrap_bolt4_binary_packet` with the node's secret scalar: None stands for an exception. */
  function Unwrap(c: Crypto, p: Packet, node: nat): (r: Option<(Payload, Option<Packet>)>) {
    match ScalarMulPoint(c.group, node, p.ephemeral)
    case None => None
    case Some(point) =>
      var secret := c.sha256(point);
      if MuMac(c, secret)(p.routing) != p.mac then None
      else OpenFrame(c, p.ephemeral, secret, Deobfuscated(c, p, secret))
  }

  /** The nodes of a route unwrap one after the other until no packet is left; None if one of them fails or is missing. */
  function PeelRoute(c: Crypto, p: Packet, nodes: seq<nat>): (payloads: Option<seq<Payload>>)
    decreases |nodes|
  {
    if nodes == [] then None
    else
      match Unwrap(c, p, nodes[0])
      case None => None
      case Some((payload, None)) => Some([payload])
      case Some((payload, Some(next))) =>
        match PeelRoute(c, next, nodes[1..])
        case None => None
        case Some(rest) => Some([payload] + rest)
  }

  // ----- what unwrapping checks and reads, without the sender

  /** A packet whose MAC is not the HMAC of its routing bytes, under the key derived from the shared point, is refused. */
  lemma WrongMacRefused(c: Crypto, p: Packet, node: nat, point: bytes)
    requires ScalarMulPoint(c.group, node, p.ephemeral) == Some(point)
    requires p.mac != c.hmac(c.sha256([109, 117] + c.sha256(point)), p.routing)
    ensures Unwrap(c, p, node) == None
  {
  }

  /** Byte `j` under the mask: the routing bytes, then zeros, against the stream derived from the shared point. */
  function ClearByte(c: Crypto, p: Packet, point: bytes, j: nat): (b: byte) {
    Xor(if j < |p.routing| then p.routing[j] else 0, c.chacha20(c.sha256([114, 104, 111] + c.sha256(point)))(j))
  }

  function ClearBytes(c: Crypto, p: Packet, point: bytes, lo: nat, n: nat): (b: bytes)
    ensures |b| == n
  {
    seq(n, i requires 0 <= i < n => ClearByte(c, p, point, lo + i))
  }

  lemma DeobfuscatedSlice(c: Crypto, p: Packet, point: bytes, lo: nat, n: nat)
    requires |p.routing| == ROUTING && lo + n <= 2 * ROUTING
    ensures |Deobfuscated(c, p, c.sha256(point))| == 2 * ROUTING
    ensures Deobfuscated(c, p, c.sha256(point))[lo..lo + n] == ClearBytes(c, p, point, lo, n)
  {
    hide Xor;
    var u := Deobfuscated(c, p, c.sha256(point));
    var padded := Slice(p.routing + Zeros(ROUTING), 0, 2 * ROUTING);
    assert padded == p.routing + Zeros(ROUTING);
    var part, clear := u[lo..lo + n], ClearBytes(c, p, point, lo, n);
    forall i | 0 <= i < n
      ensures part[i] == clear[i]
    {
      assert padded[lo + i] == if lo + i < ROUTING then p.routing[lo + i] else 0;
      assert u[lo + i] == Xor(padded[lo + i], RhoStream(c, c.sha256(point))(lo + i));
      assert clear[i] == ClearByte(c, p, point, lo + i);
    }
  }

  /** What a node returns for any packet with 1300 routing bytes, in the primitives: it raises unless the point, the MAC and
      the name are in order; it reads its fields at their places under the mask; and unless the name is empty or the MAC all
      zero, the next packet carries the next 1300 bytes and the ephemeral point blinded by the hash of point and secret. */
  lemma UnwrapExactly(c: Crypto, p: Packet, node: nat, point: bytes)
    requires |p.routing| == 1300 && ScalarMulPoint(c.group, node, p.ephemeral) == Some(point)
    ensures var name := StripZeros(ClearBytes(c, p, point, 1, 16));
      var mac := ClearBytes(c, p, point, 33, 32);
      var payload := Payload(name, FromBigEndian(ClearBytes(c, p, point, 17, 8)), FromBigEndian(ClearBytes(c, p, point, 25, 4)));
      var next := ScalarMulPoint(c.group, FromBigEndian(c.sha256(p.ephemeral + c.sha256(point))), p.ephemeral);
      Unwrap(c, p, node) ==
        if p.mac != c.hmac(c.sha256([109, 117] + c.sha256(point)), p.routing) || !IsUtf8(name) then None
        else if name == [] || mac == Zeros(32) then Some((payload, None))
        else if next.None? then None
        else Some((payload, Some(Packet(0, next.value, ClearBytes(c, p, point, 65, 1300), mac))))
  {
    hide ClearBytes, FromBigEndian, StripZeros, IsUtf8;
    var secret := c.sha256(point);
    var u := Deobfuscated(c, p, secret);
    DeobfuscatedSlice(c, p, point, 1, 16);
    DeobfuscatedSlice(c, p, point, 17, 8);
    DeobfuscatedSlice(c, p, point, 25, 4);
    DeobfuscatedSlice(c, p, point, 33, 32);
    DeobfuscatedSlice(c, p, point, 65, 1300);
    var frame := u[..FRAME];
    assert frame[1..17] == u[1..17] && frame[17..25] == u[17..25] && frame[25..29] == u[25..29] && frame[33..65] == u[33..65];
    BlindingNormalised(c, p.ephemeral, secret);
  }

  /** Blinding by the reduced scalar is blinding by the hash. */
  lemma BlindingNormalised(c: Crypto, ephemeral: bytes, secret: Digest)
    ensures ScalarMulPoint(c.group, Blinding(c, ephemeral, secret), ephemeral) ==
      ScalarMulPoint(c.group, FromBigEndian(c.sha256(ephemeral + secret)), ephemeral)
  {
    hide FromBigEndian;
    var x := FromBigEndian(c.sha256(ephemeral + secret));
    NormaliseTwice(c.group, x);
  }

  // ----- sender and nodes agree on every key

  ghost predicate NodesMatch(c: Crypto, hops: seq<Hop>, nodes: seq<nat>) {
    && |nodes| == |hops|
    && forall i :: 0 <= i < |hops| ==> 0 < nodes[i] < c.group.order && hops[i].pubkey == PointMul(c.group, nodes[i])
  }

  /** What the node of a hop needs to find: the sender's secret, and the next blinded key. */
  ghost predicate KeyAgreed(c: Crypto, node: nat, key: HopKey) {
    && ScalarMulPoint(c.group, node, key.ephemeral).Some?
    && key.secret == c.sha256(ScalarMulPoint(c.group, node, key.ephemeral).value)
  }

  lemma {:induction false} KeysAgree(c: Crypto, hops: seq<Hop>, nodes: seq<nat>, d: nat)
    requires IsGroup(c.group) && NodesMatch(c, hops, nodes) && 0 < d < c.group.order
    ensures ForwardKeys(c, hops, d, PointMul(c.group, d)).Some?
    ensures var keys := ForwardKeys(c, hops, d, PointMul(c.group, d)).value;
      && (hops != [] ==> keys[0].ephemeral == PointMul(c.group, d))
      && (forall i :: 0 <= i < |hops| ==> KeyAgreed(c, nodes[i], keys[i]))
      && (forall i :: 0 <= i < |hops| - 1 ==>
        ScalarMulPoint(c.group, Blinding(c, keys[i].ephemeral, keys[i].secret), keys[i].ephemeral) == Some(keys[i + 1].ephemeral))
    decreases |hops|
  {
    hide Normalise;
    if hops != [] {
      var g := c.group;
      var ephemeral := PointMul(g, d);
      SharedPoint(g, d, nodes[0]);
      var secret := c.sha256(ScalarMulPoint(g, d, hops[0].pubkey).value);
      var b := Blinding(c, ephemeral, secret);
      SharedPoint(g, b, d);
      var next := (d * b) % g.order;
      assert d * b == b * d;
      SmallMod(next, g.order);
      KeysAgree(c, hops[1..], nodes[1..], next);
      var keys := ForwardKeys(c, hops, d, ephemeral).value;
      var rest := ForwardKeys(c, hops[1..], next, PointMul(g, next)).value;
      assert keys == [HopKey(ephemeral, secret)] + rest;
      forall i | 0 <= i < |hops|
        ensures KeyAgreed(c, nodes[i], keys[i])
      {
        if i > 0 {
          assert keys[i] == rest[i - 1] && nodes[i] == nodes[1..][i - 1];
        }
      }
      forall i | 0 <= i < |hops| - 1
        ensures ScalarMulPoint(g, Blinding(c, keys[i].ephemeral, keys[i].secret), keys[i].ephemeral) == Some(keys[i + 1].ephemeral)
      {
        if i > 0 {
          assert keys[i] == rest[i - 1] && keys[i + 1] == rest[i];
        }
      }
    }
  }

  // ----- the route as a whole

  /** A route, its node secrets and session key, as the sender of a standard packet has them. */
  ghost predicate GoodRoute(c: Crypto, hops: seq<Hop>, nodes: seq<nat>, session: Digest) {
    && 1 <= |hops| <= MAX_HOPS && AllFit(hops)
    && IsGroup(c.group) && NodesMatch(c, hops, nodes)
    && 0 < SessionScalar(c, session)
  }

  ghost function Keys(c: Crypto, hops: seq<Hop>, nodes: seq<nat>, session: Digest): (keys: seq<HopKey>)
    requires GoodRoute(c, hops, nodes, session)
    ensures RouteKeys(c, hops, session) == Some(keys) && |keys| == |hops|
  {
    KeysAgree(c, hops, nodes, SessionScalar(c, session));
    RouteKeys(c, hops, session).value
  }

  /** The packet hop `i` receives on a good route. */
  ghost function Onion(c: Crypto, hops: seq<Hop>, nodes: seq<nat>, session: Digest, i: nat): (p: Packet)
    requires GoodRoute(c, hops, nodes, session) && i < |hops|
  {
    PacketAt(c, hops, Keys(c, hops, nodes, session), session, i)
  }

  /** The guard a hop evaluates: a next hop is named, and the MAC for it is not all zero. */
  ghost predicate Forwards(c: Crypto, hops: seq<Hop>, nodes: seq<nat>, session: Digest, i: nat): (f: bool)
    requires GoodRoute(c, hops, nodes, session) && i < |hops|
    ensures f ==> i < |hops| - 1
  {
    && i < |hops| - 1
    && StripZeros(PadName(hops[i].nextHop)) != []
    && Onion(c, hops, nodes, session, i + 1).mac != ZERO_MAC
  }

  /** The routing information has its fixed size at every hop, so every packet travels in 1366 bytes. */
  lemma OnionSizes(c: Crypto, hops: seq<Hop>, nodes: seq<nat>, session: Digest, i: nat)
    requires GoodRoute(c, hops, nodes, session) && i < |hops|
    ensures StandardSizes(Onion(c, hops, nodes, session, i))
  {
    var keys := Keys(c, hops, nodes, session);
    KeysAgree(c, hops, nodes, SessionScalar(c, session));
    RecipeValid(c, hops, keys, session);
    if i == 0 {
      SmallMod(SessionScalar(c, session), c.group.order);
    } else {
      var e := keys[i - 1].ephemeral;
      var b := Blinding(c, e, keys[i - 1].secret);
      SmallMod(b, c.group.order);
      assert KeyAgreed(c, nodes[i - 1], keys[i - 1]);
      DecodeScalarMul(c.group, b, e);
      assert ScalarMulPoint(c.group, b, e) == Some(keys[i].ephemeral);
      NoZeroDivisors(b, c.group.decode(e).value, c.group.order);
    }
  }

  /** What hop `i` reads after removing its mask: its frame with the next MAC, then the next hop's routing bytes. */
  lemma Deobfuscate(c: Crypto, hops: seq<Hop>, keys: seq<HopKey>, session: Digest, i: nat)
    requires 1 <= |hops| == |keys| <= MAX_HOPS && AllFit(hops) && i < |hops|
    ensures var u := Deobfuscated(c, PacketAt(c, hops, keys, session, i), keys[i].secret);
      && |u| == 2 * ROUTING
      && u[..FRAME] == FrameHead(hops[i]) + (if i == |hops| - 1 then ZERO_MAC else PacketAt(c, hops, keys, session, i + 1).mac)
      && (i < |hops| - 1 ==> Slice(u, FRAME, FRAME + ROUTING) == PacketAt(c, hops, keys, session, i + 1).routing)
  {
    RecipeValid(c, hops, keys, session);
    var r := MakeRecipe(c, hops, keys, session);
    var p := PacketAt(c, hops, keys, session, i);
    assert Slice(p.routing + Zeros(ROUTING), 0, 2 * ROUTING) == Layer(r, i).buffer + Zeros(r.Size());
    assert Deobfuscated(c, p, keys[i].secret) == Unmasked(r, i);
    PeelFrame(r, i);
    if i < |hops| - 1 {
      PeelRest(r, i);
    }
  }

  /** The name a hop reads can be decoded. */
  predicate Decodes(hop: Hop) {
    IsUtf8(StripZeros(PadName(hop.nextHop)))
  }

  /** Hop `i` accepts its packet, reads its own payload unless its name was cut within a character, and hands on exactly
      the next hop's packet iff its guard holds. */
  lemma HopPeels(c: Crypto, hops: seq<Hop>, nodes: seq<nat>, session: Digest, i: nat)
    requires GoodRoute(c, hops, nodes, session) && i < |hops|
    ensures Unwrap(c, Onion(c, hops, nodes, session, i), nodes[i]) ==
      if !Decodes(hops[i]) then None
      else Some((Delivered(hops[i]), if Forwards(c, hops, nodes, session, i) then Some(Onion(c, hops, nodes, session, i + 1)) else None))
  {
    var keys := Keys(c, hops, nodes, session);
    var p := Onion(c, hops, nodes, session, i);
    KeysAgree(c, hops, nodes, SessionScalar(c, session));
    assert KeyAgreed(c, nodes[i], keys[i]);
    RecipeValid(c, hops, keys, session);
    assert MuMac(c, keys[i].secret)(p.routing) == p.mac;
    Deobfuscate(c, hops, keys, session, i);
    OpensTo(c, hops, keys, session, i);
  }

  lemma OpensTo(c: Crypto, hops: seq<Hop>, keys: seq<HopKey>, session: Digest, i: nat)
    requires 1 <= |hops| == |keys| <= MAX_HOPS && AllFit(hops) && i < |hops|
    requires i < |hops| - 1 ==>
      ScalarMulPoint(c.group, Blinding(c, keys[i].ephemeral, keys[i].secret), keys[i].ephemeral) == Some(keys[i + 1].ephemeral)
    ensures var p := PacketAt(c, hops, keys, session, i);
      OpenFrame(c, p.ephemeral, keys[i].secret, Deobfuscated(c, p, keys[i].secret)) ==
      if !Decodes(hops[i]) then None
      else Some((Delivered(hops[i]),
        if i < |hops| - 1 && StripZeros(PadName(hops[i].nextHop)) != [] && PacketAt(c, hops, keys, session, i + 1).mac != ZERO_MAC
        then Some(PacketAt(c, hops, keys, session, i + 1)) else None))
  {
    var p := PacketAt(c, hops, keys, session, i);
    Deobfuscate(c, hops, keys, session, i);
    var mac := if i == |hops| - 1 then ZERO_MAC else PacketAt(c, hops, keys, session, i + 1).mac;
    FrameRoundTrip(hops[i], mac);
  }

  /** On its way to hop `i` an onion may be altered in its routing bytes, its MAC or both: peeling stops there with an error
      unless the MAC it arrives with is the HMAC of the routing bytes it arrives with, under the key only sender and hop know. */
  lemma AlteredOnion(c: Crypto, hops: seq<Hop>, nodes: seq<nat>, session: Digest, i: nat, routing: bytes, mac: bytes)
    requires GoodRoute(c, hops, nodes, session) && i < |hops|
    ensures var p, key := Onion(c, hops, nodes, session, i), c.sha256([109, 117] + Keys(c, hops, nodes, session)[i].secret);
      var altered := p.(routing := routing, mac := mac);
      && p.mac == c.hmac(key, p.routing)
      && (mac != c.hmac(key, routing) ==> PeelRoute(c, altered, nodes[i..]) == None)
      && (routing == p.routing && mac != p.mac ==> PeelRoute(c, altered, nodes[i..]) == None)
      && (mac == p.mac && c.hmac(key, routing) != c.hmac(key, p.routing) ==> PeelRoute(c, altered, nodes[i..]) == None)
  {
    hide Unwrap, FromBigEndian;
    var keys, p := Keys(c, hops, nodes, session), Onion(c, hops, nodes, session, i);
    KeysAgree(c, hops, nodes, SessionScalar(c, session));
    assert KeyAgreed(c, nodes[i], keys[i]);
    var key := c.sha256([109, 117] + keys[i].secret);
    MacOfLayer(c, hops, keys, session, i);
    var altered := p.(routing := routing, mac := mac);
    if mac != c.hmac(key, routing) {
      WrongMacRefused(c, altered, nodes[i], ScalarMulPoint(c.group, nodes[i], p.ephemeral).value);
      assert nodes[i..][0] == nodes[i];
    }
  }

  /** The sender's MAC of each layer. */
  lemma MacOfLayer(c: Crypto, hops: seq<Hop>, keys: seq<HopKey>, session: Digest, i: nat)
    requires i < |hops| == |keys| <= MAX_HOPS && AllFit(hops)
    ensures var p := PacketAt(c, hops, keys, session, i);
      && p.mac == c.hmac(c.sha256([109, 117] + keys[i].secret), p.routing)
      && p.ephemeral == keys[i].ephemeral && p.version == 0
  {
    RecipeValid(c, hops, keys, session);
  }

  /** The packet a sender emits: its ephemeral key is the session key times G, its MAC and its first hop's secret come from
      the first node's key. */
  lemma EmittedPacket(c: Crypto, hops: seq<Hop>, session: Digest)
    requires 1 <= |hops| <= MAX_HOPS && BuiltPacket(c, hops, session).Some?
    ensures var p, d := BuiltPacket(c, hops, session).value, FromBigEndian(session);
      var point := ScalarMulPoint(c.group, d, hops[0].pubkey);
      && p.version == 0 && p.ephemeral == PointMul(c.group, d)
      && point.Some? && p.mac == c.hmac(c.sha256([109, 117] + c.sha256(point.value)), p.routing)
  {
    hide FromBigEndian;
    var keys := RouteKeys(c, hops, session).value;
    MacOfLayer(c, hops, keys, session, 0);
    ReducedScalar(c.group, FromBigEndian(session));
  }

  lemma ReducedScalar(g: Group, scalar: int)
    ensures Normalise(g, scalar % g.order) == Normalise(g, scalar)
  {
    SmallMod(scalar % g.order, g.order);
  }

  /** Between frame and filler the innermost layer carries the padding stream of the session, under its own mask. */
  lemma PaddingCarried(c: Crypto, hops: seq<Hop>, keys: seq<HopKey>, session: Digest, j: nat)
    requires 1 <= |hops| == |keys| <= MAX_HOPS && AllFit(hops) && 65 <= j < 1300 - 65 * (|hops| - 1)
    ensures var n := |hops|;
      PacketAt(c, hops, keys, session, n - 1).routing[j] ==
      Xor(c.chacha20(c.sha256([112, 97, 100] + session))(j - 65), c.chacha20(c.sha256([114, 104, 111] + keys[n - 1].secret))(j))
  {
    hide Xor;
    RecipeValid(c, hops, keys, session);
    var r, n := MakeRecipe(c, hops, keys, session), |hops|;
    FrameSizes(n - 1);
    WrapByte(r, n - 1, Inner(r, n - 1), j);
    XorZero(c.chacha20(c.sha256(PAD + session))(j - 65));
  }

  ghost function AllDelivered(hops: seq<Hop>): (payloads: seq<Payload>)
    requires AllFit(hops)
    ensures |payloads| == |hops|
  {
    seq(|hops|, i requires 0 <= i < |hops| => Delivered(hops[i]))
  }

  lemma PrependOne<T>(s: seq<T>, i: nat, k: nat)
    requires i + 1 + k <= |s|
    ensures [s[i]] + s[i + 1..i + 1 + k] == s[i..i + 1 + k]
  {
  }

  /** Every hop from `i` up to, not including, `j` forwards. */
  ghost predicate ForwardsThrough(c: Crypto, hops: seq<Hop>, nodes: seq<nat>, session: Digest, i: nat, j: nat)
    requires GoodRoute(c, hops, nodes, session) && j <= |hops|
  {
    forall k :: i <= k < j ==> Forwards(c, hops, nodes, session, k)
  }

  lemma NodesGiven(c: Crypto, hops: seq<Hop>, nodes: seq<nat>, session: Digest)
    requires GoodRoute(c, hops, nodes, session)
    ensures AllFit(hops) && |nodes| == |hops|
  {
  }

  lemma OneMoreForwards(c: Crypto, hops: seq<Hop>, nodes: seq<nat>, session: Digest, i: nat)
    requires GoodRoute(c, hops, nodes, session) && i < |hops| && Forwards(c, hops, nodes, session, i)
    ensures forall j :: i < j <= |hops| ==>
      (ForwardsThrough(c, hops, nodes, session, i, j) <==> ForwardsThrough(c, hops, nodes, session, i + 1, j))
  {
    hide Forwards, GoodRoute;
  }

  /** From hop `i` on, peeling fails exactly when it reaches a hop whose name does not decode; otherwise it reaches every
      remaining hop exactly when each but the last forwards. */
  lemma {:induction false} PeelsFrom(c: Crypto, hops: seq<Hop>, nodes: seq<nat>, session: Digest, i: nat)
    requires GoodRoute(c, hops, nodes, session) && i < |hops|
    ensures var r := PeelRoute(c, Onion(c, hops, nodes, session, i), nodes[i..]);
      && (r.None? <==> exists j :: i <= j < |hops| && !Decodes(hops[j]) && ForwardsThrough(c, hops, nodes, session, i, j))
      && (r.Some? ==>
        && |r.value| <= |hops| - i && r.value == AllDelivered(hops)[i..i + |r.value|]
        && (|r.value| == |hops| - i <==> ForwardsThrough(c, hops, nodes, session, i, |hops| - 1)))
    decreases |hops| - i
  {
    hide Unwrap, Onion, Forwards, Delivered, Decodes;
    NodesGiven(c, hops, nodes, session);
    HopPeels(c, hops, nodes, session, i);
    hide GoodRoute;
    assert nodes[i..][0] == nodes[i] && nodes[i..][1..] == nodes[i + 1..];
    if !Decodes(hops[i]) {
      assert ForwardsThrough(c, hops, nodes, session, i, i);
    } else if Forwards(c, hops, nodes, session, i) {
      PeelsFrom(c, hops, nodes, session, i + 1);
      OneMoreForwards(c, hops, nodes, session, i);
      var rest := PeelRoute(c, Onion(c, hops, nodes, session, i + 1), nodes[i + 1..]);
      if rest.Some? {
        PrependOne(AllDelivered(hops), i, |rest.value|);
        assert AllDelivered(hops)[i] == Delivered(hops[i]);
      }
    }
  }

  /** A packet built for 1 to 20 hops is peeled with an error exactly when it reaches a hop whose cut name does not decode.
      Otherwise each node reads its own payload, and every node is reached exactly when every forwarding hop names a next
      hop and no inner MAC is all zero. */
  lemma OnionDelivers(c: Crypto, hops: seq<Hop>, nodes: seq<nat>, session: Digest)
    requires GoodRoute(c, hops, nodes, session)
    ensures BuiltPacket(c, hops, session).Some?
    ensures var r := PeelRoute(c, BuiltPacket(c, hops, session).value, nodes);
      && (r.None? <==> exists j :: 0 <= j < |hops| && !Decodes(hops[j]) && ForwardsThrough(c, hops, nodes, session, 0, j))
      && (r.Some? ==>
        && r.value <= AllDelivered(hops)
        && (r.value == AllDelivered(hops) <==> ForwardsThrough(c, hops, nodes, session, 0, |hops| - 1)))
  {
    PeelsFrom(c, hops, nodes, session, 0);
    assert nodes[0..] == nodes;
    assert BuiltPacket(c, hops, session) == Some(Onion(c, hops, nodes, session, 0));
  }

  /** The payload a hop reads is the sender's exactly when the name fits its field. */
  lemma DeliveredExactly(hop: Hop)
    requires FieldsFit(hop)
    ensures Delivered(hop) == Payload(hop.nextHop, hop.amount, hop.cltv) <==> |hop.nextHop| <= 16 && NoTrailingZero(hop.nextHop)
  {
    NameRoundTrip(hop.nextHop);
  }

  /** A name that its 16-byte field carries unchanged. */
  predicate NameFits(name: bytes) {
    IsUtf8(name) && |name| <= 16 && NoTrailingZero(name)
  }

  ghost function SentPayloads(hops: seq<Hop>): (payloads: seq<Payload>)
    requires AllFit(hops)
  {
    seq(|hops|, i requires 0 <= i < |hops| => Payload(hops[i].nextHop, hops[i].amount, hops[i].cltv))
  }

  /** With fitting names, none empty before the last hop, and no inner MAC all zero, peeling recovers hop by hop exactly
      what the sender wrote, to the last hop. */
  lemma EveryHopReached(c: Crypto, hops: seq<Hop>, nodes: seq<nat>, session: Digest)
    requires GoodRoute(c, hops, nodes, session)
    requires forall i :: 0 <= i < |hops| ==> NameFits(hops[i].nextHop)
    requires forall i :: 0 <= i < |hops| - 1 ==> hops[i].nextHop != []
    requires forall i :: 0 < i < |hops| ==> Onion(c, hops, nodes, session, i).mac != ZERO_MAC
    ensures BuiltPacket(c, hops, session).Some?
    ensures PeelRoute(c, BuiltPacket(c, hops, session).value, nodes) == Some(SentPayloads(hops))
  {
    hide Onion, PeelRoute, IsUtf8, StripZeros, PadName;
    forall i | 0 <= i < |hops|
      ensures Decodes(hops[i]) && Delivered(hops[i]) == SentPayloads(hops)[i]
      ensures StripZeros(PadName(hops[i].nextHop)) == hops[i].nextHop
    {
      NameRoundTrip(hops[i].nextHop);
    }
    assert AllDelivered(hops) == SentPayloads(hops);
    OnionDelivers(c, hops, nodes, session);
  }
}
