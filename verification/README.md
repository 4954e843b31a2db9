# Lightning protocol core: a Dafny verification

This project models the protocol core of a Lightning payment library and proves what it is for.

- **Onion packets** (`OnionLayers`, `Curve`, `Sphinx`, `SphinxSender`). The sender's in-place construction of the
  1300-byte BOLT #4 onion, the nodes' unwrapping, and the theorem that they meet: every hop finds the buffer the sender
  authenticated for it. The masking argument is proved for any frame size and hop limit; a key stream is a function from
  positions to bytes.
- **Per-commitment secrets** (`Shachain`, `ShachainReceiver`, `ShachainRuns`). Derivation in a tree of 2^48 indices, and
  the compact store as a class whose contents are characterised after every honest run.
- **Channels** (`Channel`, `ChannelRuns`, `MapSums`). The mutable channel, proved against functions on its state, and
  conservation over every run of calls.
- **Routing** (`Network`, `Pricing`, `RouteSearch`, `RouteCompleteness`, `RouteExecution`, `RouteWealth`, `Node`, `RouteOnNodes`). The search,
  its backward pricing, and the execution of its result: first on values, then on the shared channel objects.
- **Scripts** (`Script`, `Interpreter`, `ScriptTrees`, `MultiSig`, `ScriptTemplates`). The interpreter with its flag
  stack, an equivalent structured semantics, and exact spending conditions of the scripts the library builds.
- **Addresses and signatures** (`ConvertBits`, `Bech32m`, `Schnorr`, `Adaptor`). Bit regrouping, the Bech32m checksum, and
  the agreement of secret-side with point-side computations.

`Bytes` and `Numbers` hold byte strings, bit operations and residues. A class or loop in the source is a class or loop
here; its methods are proved equal to functions, and the theorems are about those functions. Hashes, HMAC, the stream
cipher and the ECDSA check are function parameters about which nothing is assumed but output lengths. A curve point is the
scalar that multiplies the generator, modulo a prime order; `Curve.GroupExists` and `Schnorr.XCurveExists` show that the
hypotheses about such groups can be met. `None` stands for an exception.

`dafny verify dfyconfig.toml` checks the whole project.

## Where the code and its documentation differ

The model follows the code.

- The store of revealed secrets is documented to need at most 48 entries. That holds for descending reveals
  (`ShachainRuns.DescendingStore`); `ShachainRuns.StoreSize` gives the exact size for every order, and
  `ShachainRuns.FortyNineEntries` a run that needs 49.
- The store is documented to detect tampering. A secret is compared with stored ancestors only, never with the
  descendants it prunes: a foreign secret is refused exactly at derivable indices (`ShachainRuns.ForeignRefused`), elsewhere
  it is harmless exactly when it derives what it prunes (`ShachainRuns.ForeignFalsifies`), and `ShachainRuns.TamperedRoot`
  is an instance that goes unnoticed.
- A channel's balances and locked amounts equal its capacity exactly as long as no successful offer uses the id of an
  active HTLC with a non-zero amount (`ChannelRuns.OpenedConserves`); `ChannelRuns.ReusedIdLosesFunds` is an instance.
- Adapted signatures are documented to be valid. The point helpers replace the scalar 0 by 1, so they are valid exactly
  when private key, challenge and final scalar are non-zero modulo the order (`Adaptor.AdaptedVerifies`); the zero key of
  `Adaptor.ZeroKeyFails` is accepted without complaint.
- Derived revocation keys are documented to match. For the same reason a non-zero private key opens the public key exactly
  when no secret and no weight is zero (`Adaptor.RevocationKeysAgree`); `Adaptor.ZeroSecretFails` is an instance.
- The comment at the filler overwrite calls the layer outermost; it is the innermost one.
- A next-hop name longer than 16 bytes is cut, possibly within a character: `Sphinx.DeliveredExactly` and
  `Sphinx.HopPeels` say what then arrives, `Sphinx.CutCharacter` is a name that no longer decodes.
- The search is said to go on to alternate paths when a path cannot pay its fees. It keeps one shortest path to each node,
  so it finds a route exactly when one of those can pay (`RouteCompleteness.UniqueDecides`, and `RouteSearch.FindRoute` for
  ties); `RouteCompleteness.CoveredFound` is a condition on balances under which nothing is missed, and
  `RouteCompleteness.MissedRoute` a graph where a route is.
- A route is searched without regard to channel states; it can be locked exactly when its channels are open
  (`RouteWealth.RouteLocks`), and `RouteWealth.ClosedRouteFound` is one that cannot.

## Model

| member | source | states |
|---|---|---|
| OnionLayers.LayerTail | src/payment_communities/protocols/sphinx.py:118-134 | Filler invariant, for every frame size and hop limit: at layer i the last i frames of the sender's buffer are the last i frames of the filler buffer after i steps |
| OnionLayers.PeelFrame | src/payment_communities/protocols/sphinx.py:254-260 | After extending its buffer with zeros and removing its mask, hop i reads exactly its own frame head and the MAC the sender computed for the next layer |
| OnionLayers.PeelRest | src/payment_communities/protocols/sphinx.py:254-275 | Behind its frame a forwarding hop finds, byte for byte, the buffer the sender authenticated for the next hop |
| OnionLayers.MaskedBit | src/payment_communities/protocols/sphinx.py:212-214 | Masking is exclusive or with the stream, bit by bit |
| Sphinx.WireRoundTrip | src/payment_communities/protocols/sphinx.py:54-78 | Parsing a serialised packet gives it back if and only if its fields have the sizes 33, 1300 and 32 |
| Sphinx.WireCanonical | src/payment_communities/protocols/sphinx.py:62-78 | Exactly the 1366-byte strings parse, and each is the serialisation of what it parses to |
| Sphinx.WireLayout | src/payment_communities/protocols/sphinx.py:54-60 | Where each byte of each field stands in the 1366 |
| Sphinx.NameRoundTrip | src/payment_communities/protocols/sphinx.py:202-261 | A next-hop name survives cutting, padding and stripping if and only if it has at most 16 bytes and no trailing zero byte |
| Sphinx.NameDecodes | src/payment_communities/protocols/sphinx.py:202-261 | A UTF-8 name of at most 16 bytes still decodes after padding and stripping |
| Sphinx.Utf8Exactly | src/payment_communities/protocols/sphinx.py:261 | The names that decode are exactly the encodings of texts of Unicode scalar values |
| Sphinx.CutCharacter | src/payment_communities/protocols/sphinx.py:202-261 | A valid 17-byte name whose cut field no longer decodes |
| Sphinx.FrameRoundTrip | src/payment_communities/protocols/sphinx.py:199-264 | Name field, amount, expiry and next MAC are read back from the frame the sender packs |
| Sphinx.FrameLayout | src/payment_communities/protocols/sphinx.py:199-206 | Where each byte of the frame comes from: realm 0, name, big-endian amount and expiry, four zeros, next MAC |
| Sphinx.DeliveredExactly | src/payment_communities/protocols/sphinx.py:199-266 | A hop reads exactly the (next hop, amount, expiry) the sender wrote if and only if the name fits its field |
| Sphinx.KeysAgree | src/payment_communities/protocols/sphinx.py:166-181 | For every route, each node's Diffie-Hellman secret equals the sender's, and each blinded ephemeral key is what the previous node computes |
| Sphinx.OnionSizes | src/payment_communities/protocols/sphinx.py:222-227 | Every packet of a route has the standard field sizes, so each travels in 1366 bytes |
| Sphinx.EmittedPacket | src/payment_communities/protocols/sphinx.py:153-227 | The emitted packet carries session key times G, and the HMAC of its routing bytes under the key of the first node's shared point |
| Sphinx.PaddingCarried | src/payment_communities/protocols/sphinx.py:183-192 | Behind its frame the innermost layer carries the padding stream of the session, masked like the rest |
| Sphinx.WrongMacRefused | src/payment_communities/protocols/sphinx.py:247-252 | Whatever the packet: if its MAC is not the HMAC of its routing bytes, under the mu key of the shared point, unwrapping raises |
| Sphinx.UnwrapExactly | src/payment_communities/protocols/sphinx.py:230-291 | For every packet with 1300 routing bytes, in the bare primitives: when unwrapping raises, which masked bytes become name, amount, expiry and MAC, and the next packet with its blinded key |
| Sphinx.AlteredOnion | src/payment_communities/protocols/sphinx.py:247-252 | Along every route: an onion altered before any hop in its routing bytes, its MAC or both ends there in an error, unless its MAC is the HMAC of its routing bytes under the key that sender and hop share |
| Sphinx.HopPeels | src/payment_communities/protocols/sphinx.py:230-291 | Hop i passes its HMAC check, reads its own payload (an exception exactly when its cut name does not decode), and hands on exactly the sender's next packet if and only if the name is non-empty and the next MAC not all zero |
| Sphinx.PeelsFrom | src/payment_communities/protocols/sphinx.py:230-291 | From any hop on: an error if and only if a hop is reached whose name does not decode, otherwise payloads in order, and all remaining hops reached if and only if all guards hold |
| Sphinx.OnionDelivers | src/payment_communities/protocols/sphinx.py:153-291 | Peeling a packet for 1 to 20 hops fails if and only if a hop is reached whose cut name does not decode; otherwise payloads come in order, and every hop is reached if and only if every forwarding guard holds |
| Sphinx.EveryHopReached | src/payment_communities/protocols/sphinx.py:153-291 | With fitting names and no all-zero inner MAC, peeling recovers exactly every hop's (next hop, amount, expiry), up to and not beyond the last hop |
| SphinxSender.MaskInPlace | src/payment_communities/protocols/sphinx.py:212-214 | The whole buffer, masked with the stream |
| SphinxSender.ShiftLeft | src/payment_communities/protocols/sphinx.py:127-130 | The buffer one frame further left, zeros behind |
| SphinxSender.PrependFrame | src/payment_communities/protocols/sphinx.py:208-210 | The frame in front of the buffer, the last frame dropped |
| SphinxSender.OverwriteTail | src/payment_communities/protocols/sphinx.py:216-218 | Only the tail replaced |
| SphinxSender.GenerateFiller | src/payment_communities/protocols/sphinx.py:118-134 | For any number of hops the shifting and masking loop computes the slice of the filler buffer that the code takes; for 1 to 20 it is the filler of the layered definition |
| SphinxSender.DeriveKeys | src/payment_communities/protocols/sphinx.py:166-181 | The forward loop computes the route's secrets and blinded keys, or fails on the first key that does not parse |
| SphinxSender.WrapInPlace | src/payment_communities/protocols/sphinx.py:194-218 | One wrapping step on the mutable mix header |
| SphinxSender.CreatePacket | src/payment_communities/protocols/sphinx.py:153-227 | The whole in-place construction returns exactly the packet that the delivery theorems are about, or fails where the code raises |
| Curve.DecodePointMul | src/payment_communities/bitcoin/utils.py:134-147 | Multiplying G always gives a parsable point, and the asked-for multiple if and only if the scalar is not a multiple of the order |
| Curve.SharedPoint | src/payment_communities/bitcoin/utils.py:134-180 | a * (b * G) and b * (a * G) are the same, finite point |
| Curve.DecodePointSub | src/payment_communities/bitcoin/utils.py:182-198 | Subtracting points subtracts scalars; equal points have no encodable difference |
| Curve.PointHelpers | src/payment_communities/bitcoin/utils.py:134-180 | The point helpers as operations on scalars, with 0 counted as 1 and infinity without encoding |
| Shachain.FlipAndHash | src/payment_communities/protocols/shachain.py:31-35 | One in-place bit flip followed by the hash |
| Shachain.FlipsOneBit | src/payment_communities/protocols/shachain.py:31-35 | Of the 256 bits a flip changes exactly bit b % 8 of byte b / 8 |
| Shachain.SecretStep | src/payment_communities/protocols/shachain.py:29-36 | The secret of 0 is the seed; that of any other index is the hash of the secret without its lowest set bit, that bit flipped |
| Shachain.HeightIsLowestBit | src/payment_communities/protocols/shachain.py:44-50 | The height of an index is the position of its lowest set bit, 48 for the root |
| Shachain.PowersDiffer | src/payment_communities/protocols/shachain.py:16-36 | Under every injective hash, different powers of two have different secrets |
| Shachain.DescendLoop | src/payment_communities/protocols/shachain.py:29-36 | The descending bit loop over a mutable buffer |
| Shachain.DeriveSecret | src/payment_communities/protocols/shachain.py:16-36 | Rejects exactly wrong seed lengths and out-of-range indices, otherwise returns the secret |
| Shachain.DeriveFromAncestor | src/payment_communities/protocols/shachain.py:57-79 | The ancestor loop, started at the ancestor's trailing zeros |
| Shachain.CanDeriveIsInterval | src/payment_communities/protocols/shachain.py:39-54 | `can_derive(a, t)` holds if and only if t (its low 48 bits) lies in [a, a + 2^tz(a)) |
| Shachain.BlockNested | src/payment_communities/protocols/shachain.py:39-54 | A proper descendant has fewer trailing zeros and its block stays inside its ancestor's |
| Shachain.CanDeriveAntisymmetric | src/payment_communities/protocols/shachain.py:39-54 | Derivability is antisymmetric |
| Shachain.CanDeriveTransitive | src/payment_communities/protocols/shachain.py:39-54 | Derivability is transitive |
| Shachain.SubtreesLaminar | src/payment_communities/protocols/shachain.py:39-54 | Two subtrees with a common index are nested |
| Shachain.DescendThrough | src/payment_communities/protocols/shachain.py:29-36 | The descent to t factors through every prefix of t |
| Shachain.AncestorAgreesWithSeed | src/payment_communities/protocols/shachain.py:57-79 | Deriving through any ancestor equals deriving from the seed |
| Shachain.AncestorsCompose | src/payment_communities/protocols/shachain.py:57-79 | Derivation composes along chains, from any starting secret |
| ShachainReceiver.UniqueAncestor | src/payment_communities/protocols/shachain.py:139-149 | At most one stored key covers an index, so the scan order of the dictionary does not matter |
| ShachainReceiver.Receiver.AddSecret | src/payment_communities/protocols/shachain.py:110-137 | Outcome, new store and last index for every secret and store; stored keys stay an antichain |
| ShachainReceiver.Receiver.Prune | src/payment_communities/protocols/shachain.py:131-137 | The nested deletion loops leave exactly the keys no other key derives |
| ShachainReceiver.Receiver.PruneUnder | src/payment_communities/protocols/shachain.py:135-137 | The inner loop deletes exactly the proper descendants of one key |
| ShachainReceiver.Receiver.GetSecret | src/payment_communities/protocols/shachain.py:139-149 | Answers from the covering key, None exactly when there is none |
| ShachainRuns.NewAncestorAnswers | src/payment_communities/protocols/shachain.py:117-137 | Any secret for an underivable index is accepted and then answers for its whole block, uncompared with what it prunes; nothing outside changes |
| ShachainRuns.SurvivesExactly | src/payment_communities/protocols/shachain.py:117-137 | Storing a secret keeps every earlier answer if and only if it derives each stored secret it prunes, which the code does not compare |
| ShachainRuns.HonestRun | src/payment_communities/protocols/shachain.py:110-137 | After honest secrets in any order the store holds exactly the secrets of the indices no other added index derives |
| ShachainRuns.HonestAntichain | src/payment_communities/protocols/shachain.py:131-137 | After every honest run, no stored key derives another |
| ShachainRuns.HonestNeverRefused | src/payment_communities/protocols/shachain.py:118-125 | After every honest run, no honest secret is refused |
| ShachainRuns.HonestAnswers | src/payment_communities/protocols/shachain.py:139-149 | After every honest run, `get_secret(i)` is the generator's secret if i is derivable from an added index and None otherwise |
| ShachainRuns.ForeignRefused | src/payment_communities/protocols/shachain.py:118-125 | After every honest run a foreign secret is refused if and only if its index is derivable from an added one |
| ShachainRuns.ForeignFalsifies | src/payment_communities/protocols/shachain.py:118-149 | At an underivable index any secret is accepted, and the honest answers survive if and only if it derives the honest secrets below it |
| ShachainRuns.ForeignRoot | src/payment_communities/protocols/shachain.py:118-149 | For every hash: with index 1 stored honestly any secret for index 0 is accepted, and the answers survive if and only if both roots, lowest bit flipped, hash to the same |
| ShachainRuns.TamperedRoot | src/payment_communities/protocols/shachain.py:118-149 | An instance where the answer at 1 is changed |
| ShachainRuns.TopOfSuffix | src/payment_communities/protocols/shachain.py:131-137 | For indices 2^48-1 down to k the underivable ones are the starts of the aligned blocks partitioning [k, 2^48) |
| ShachainRuns.BlocksGrow | src/payment_communities/protocols/shachain.py:131-137 | Later blocks have strictly more trailing zeros |
| ShachainRuns.BlocksPartition | src/payment_communities/protocols/shachain.py:131-137 | Every index of [k, 2^48) lies in exactly one block |
| ShachainRuns.BlockCount | src/payment_communities/protocols/shachain.py:101-105 | The number of blocks is popcount(2^48 - k) |
| ShachainRuns.DescendingStore | src/payment_communities/protocols/shachain.py:101-137 | In the reveal order the keys are the block starts, popcount(2^48 - k) of them and at most 48 |
| ShachainRuns.StoreSize | src/payment_communities/protocols/shachain.py:101-137 | In any order the store holds as many entries as the run has underivable indices, so 48 suffice exactly when those are at most 48 |
| ShachainRuns.OddRevealsPileUp | src/payment_communities/protocols/shachain.py:101-137 | Revealing n odd indices leaves n entries |
| ShachainRuns.FortyNineEntries | src/payment_communities/protocols/shachain.py:101-105 | The documented bound of 48 fails for the odd indices 1 to 97 |
| Channel.PaymentChannel.constructor | src/payment_communities/domain/node.py:48-67 | A new channel is open with everything on the opener's side |
| Channel.PaymentChannel.AddHtlc | src/payment_communities/domain/channel.py:109-140 | Outcome and whole new state of an offer, from either side |
| Channel.PaymentChannel.RedeemHtlc | src/payment_communities/domain/channel.py:142-170 | Outcome and whole new state of a redemption |
| Channel.PaymentChannel.RefundHtlc | src/payment_communities/domain/channel.py:172-197 | Outcome and whole new state of a refund |
| Channel.PaymentChannel.CloseCooperatively | src/payment_communities/domain/channel.py:210-218 | Settles the channel and reports both balances |
| ChannelRuns.FailureKeepsState | src/payment_communities/domain/channel.py:109-218 | A failed call changes neither balances, HTLCs, sequence number nor state |
| ChannelRuns.OfferDecides | src/payment_communities/domain/channel.py:109-140 | Who pays for an offer, when it succeeds, and which balance falls by how much |
| ChannelRuns.ResolutionDecides | src/payment_communities/domain/channel.py:142-197 | When a redemption and a refund succeed, and which side then gets the amount |
| ChannelRuns.RunConserves | src/payment_communities/domain/channel.py:109-218 | Over every run, balances plus locked amounts change exactly by the amounts that reused ids overwrite |
| ChannelRuns.ConservesThroughout | src/payment_communities/domain/channel.py:109-218 | The same from any state: the total is kept by every prefix of the run if and only if no call is such an offer |
| ChannelRuns.LossIsFinal | src/payment_communities/domain/channel.py:109-218 | With non-negative offers what is overwritten is never made up for |
| ChannelRuns.OpenedConserves | src/payment_communities/domain/channel.py:109-218 | From opening on, balances plus locked amounts equal the capacity throughout a run if and only if no successful offer uses the id of an active HTLC with a non-zero amount; with non-negative offers the end of the run alone decides |
| ChannelRuns.ClosedForGood | src/payment_communities/domain/channel.py:109-218 | Closing moves nothing, and in every run after it no offer succeeds, HTLCs are only resolved, and the total stays |
| ChannelRuns.ReusedIdLosesFunds | src/payment_communities/domain/channel.py:138 | Two offers under one id lose the first amount: conservation is false without fresh ids |
| ChannelRuns.RunNonNegative | src/payment_communities/domain/channel.py:119-136 | With non-negative offers no balance becomes negative in any run |
| ChannelRuns.ResolvesOnce | src/payment_communities/domain/channel.py:142-197 | A resolved HTLC can never be redeemed or refunded again, whatever happens in between, as long as its id is not offered anew |
| ChannelRuns.RunClaim | src/payment_communities/domain/channel.py:109-197 | The sender's balance plus its own pending offers changes exactly by what redemptions move |
| ChannelRuns.OrderIrrelevant | src/payment_communities/domain/channel.py:109-218 | Two runs that end with nothing pending and redeemed the same HTLCs, in any order, end with the same balances |
| Network.NetworkGraph.AddChannel | src/payment_communities/network/routing.py:168-176 | The channel becomes the edge in both directions and both parties become nodes |
| Network.NetworkGraph.GetCapacity | src/payment_communities/network/routing.py:178-185 | The balance of the asking side, zero without a channel |
| Network.BalanceTowards | src/payment_communities/network/routing.py:140-185 | What the search compares: the balance of the side that pays, which may equal the amount |
| RouteSearch.PopMinimum | src/payment_communities/network/routing.py:96 | Some entry of least cost, whichever |
| RouteSearch.PushNeighbours | src/payment_communities/network/routing.py:147-151 | One longer entry for every eligible neighbour off the path, and nothing else |
| RouteSearch.PriceRoute | src/payment_communities/network/routing.py:98-139 | The backward loop prices the path exactly, or fails when a hop lacks balance |
| RouteSearch.FindRoute | src/payment_communities/network/routing.py:76-155 | Terminates on every graph, for every fee policy: a route found is a priced simple path over a shortest path off the target; every neighbour of the target that is nearer, and if none is found every one that can be reached, has a shortest path that cannot pay the fees |
| RouteCompleteness.NodesNearest | src/payment_communities/network/routing.py:92-151 | Every node before the target on a found route is at its fewest-hop distance from the source among walks off the target |
| RouteCompleteness.UniqueDecides | src/payment_communities/network/routing.py:140-151 | Where shortest paths to the neighbours of the target are unique, a route is found if and only if one of them can pay the fees on to the target |
| RouteCompleteness.ViableFound | src/payment_communities/network/routing.py:76-155 | If every simple path with enough balance for the payment can pay its fees, a route is found if and only if the target is reachable over such edges, and no walk is shorter |
| RouteCompleteness.FreeFound | src/payment_communities/network/routing.py:76-155 | Without fees a route is found if and only if the target is reachable over edges with enough balance, and no walk is shorter |
| RouteCompleteness.CoveredFound | src/payment_communities/network/routing.py:76-155 | The same for every non-negative fee policy, if every edge that holds the payment holds it with the fees of a longest possible path |
| RouteCompleteness.RegisteredClosed | src/payment_communities/network/routing.py:168-176 | Registering a channel keeps all channels between known nodes |
| RouteCompleteness.MissedRoute | src/payment_communities/network/routing.py:140-151 | On a graph of six channels the search returns no route although a longer path can pay its fees |
| RouteSearch.RoutePriced | src/payment_communities/network/routing.py:98-139 | Of a found route: balances suffice, amount[i] = amount[i+1] + fee[i], total = payment + fees, locktimes follow the hop-distance policy, and `path` is the searched path |
| Pricing.PricedSuffix | src/payment_communities/network/routing.py:105-132 | The same for every suffix of a simple path |
| Pricing.LocktimeStep | src/payment_communities/domain/core/policies.py:96-98 | The closed form grows by exactly the delta per hop |
| Pricing.FeeRounding | src/payment_communities/domain/core/policies.py:42-44 | One floored fee loses less than one satoshi against the exact one |
| Pricing.RoundingBound | src/payment_communities/domain/core/policies.py:42-44 | After j charged hops the amount never exceeds x(1+r/10^6)+b iterated, and falls short of it by less than the geometric sum |
| Pricing.HopAmounts | src/payment_communities/network/routing.py:105-131 | The amount of a hop is the payment charged once per hop behind it, except for the last |
| Pricing.ViableForLess | src/payment_communities/network/routing.py:105-131 | A path viable for an amount is viable, with smaller amounts, for every smaller payment |
| Pricing.FreePathViable | src/payment_communities/network/routing.py:105-131 | Without fees every path with enough balance is viable and costs nothing extra |
| RouteExecution.LockThenResolve | src/payment_communities/domain/channel.py:109-197 | Locking succeeds if and only if the channel is open and the balance covers it; redeeming then transfers the amount, refunding restores the channel |
| RouteExecution.RedeemedRefinesTransfer | src/payment_communities/domain/node.py:81-108 | Locking all hops forwards and redeeming them backwards equals one atomic transfer along the route, sequence numbers aside |
| RouteExecution.RefundedRestores | src/payment_communities/domain/node.py:110-115 | Locking all hops and refunding them after expiry restores every channel, sequence numbers aside |
| RouteExecution.LockNeedsOpen | src/payment_communities/domain/channel.py:109-140 | Over funded hops on distinct channels, locking all of them succeeds if and only if all their channels are open |
| RouteWealth.RouteLocks | src/payment_communities/network/routing.py:98-139 | A found route can be locked from end to end, with any ids, if and only if all its channels are open: no hop runs out of balance while the others are locked |
| RouteWealth.ClosedRouteFound | src/payment_communities/network/routing.py:178-185 | Over a settled channel the search finds a route that cannot be locked |
| RouteWealth.RouteReady | src/payment_communities/network/routing.py:98-139 | With open channels and fresh ids a found route meets what execution needs |
| RouteWealth.ExecutedFlow | src/payment_communities/domain/node.py:81-108 | Execution changes every node's wealth by its net flow over the hops |
| RouteWealth.FlowOfPriced | src/payment_communities/network/routing.py:105-132 | On a priced path the flow is minus the total at the source, the payment at the target, the fee at each forwarder, zero elsewhere |
| RouteWealth.RouteSettles | src/payment_communities/network/routing.py:98-139 | Executing a found route costs the source exactly the total, pays the target the amount and each forwarder its fee, and nobody else changes |
| RouteWealth.RouteRefunds | src/payment_communities/domain/channel.py:172-197 | Locking a found route and refunding after expiry restores every channel |
| RouteWealth.SourceExpiresLast | src/payment_communities/network/routing.py:132 | All hops have expired if and only if the source's own hop has |
| RouteWealth.RegisteredShared | src/payment_communities/network/routing.py:168-176 | Registering a channel keeps one shared channel per pair of neighbours |
| Node.LightningNode.OpenChannel | src/payment_communities/domain/node.py:48-67 | Both nodes hold the one new channel and start an empty table of revocation secrets for it |
| Node.LightningNode.RouteHtlcPayment | src/payment_communities/domain/node.py:81-103 | Offers on the one channel with the peer, leaves all others, and records a secret under the new sequence number exactly on success |
| Node.LightningNode.FulfillHtlc | src/payment_communities/domain/node.py:105-108 | Redeems on the one channel with the peer and leaves all others |
| Node.LightningNode.RefundHtlc | src/payment_communities/domain/node.py:110-115 | Refunds on the one channel with the peer and leaves all others |
| RouteOnNodes.OpenOnGraph | src/payment_communities/domain/node.py:48-67 | Opening and registering a channel keeps the graph and the nodes sharing one object per pair |
| RouteOnNodes.OneChannelChanged | src/payment_communities/network/routing.py:175-176 | A change of one shared channel object shows in the graph exactly at its pair, in both directions |
| RouteOnNodes.LockOnHop | src/payment_communities/domain/node.py:81-103 | On the node objects: one hop locked, seen through the graph |
| RouteOnNodes.LockRoute | src/payment_communities/domain/node.py:81-103 | On the node objects: the hops locked in order, or an exception where the abstract run has one |
| RouteOnNodes.RedeemRoute | src/payment_communities/domain/node.py:105-108 | On the node objects: the hops redeemed from the target back |
| RouteOnNodes.RefundRoute | src/payment_communities/domain/node.py:110-115 | On the node objects: the hops refunded from the target back |
| RouteOnNodes.PayRoute | src/payment_communities/domain/node.py:81-108 | Locking and redeeming a found route on the shared objects goes through if and only if its channels are open, and then ends with exactly the promised balances |
| RouteOnNodes.LockAndRefund | src/payment_communities/domain/node.py:81-115 | Locking a found route on the shared objects and refunding it after expiry goes through if and only if its channels are open, and then leaves every channel as before, sequence numbers aside |
| RouteOnNodes.Pay | src/payment_communities/network/routing.py:76-155 | Search, then lock and redeem what was found: the payment goes through if and only if a route is found and its channels are open, with exactly the promised balances |
| Script.FalseIsZero | src/payment_communities/bitcoin/interpreter.py:47-63 | The false stack values are exactly zero and negative zero, of any length |
| Script.SignedDecoding | src/payment_communities/bitcoin/interpreter.py:241 | Stack integers are two's complement: the little-endian value, less 256^n where needed for the signed range |
| Script.LittleIsReversed | src/payment_communities/bitcoin/interpreter.py:241 | Little-endian reading is big-endian reading from the other end |
| Script.OpcodeEffects | src/payment_communities/bitcoin/interpreter.py:154-287 | What every opcode other than CHECKMULTISIG and the locks does to a stack that is long enough |
| Script.LockEffects | src/payment_communities/bitcoin/interpreter.py:238-259 | The lock opcodes keep the stack or fail, by the comparisons on the locktime and the low 16 bits of the sequence number |
| Script.Underflows | src/payment_communities/bitcoin/interpreter.py:154-334 | Every opcode fails on a stack too short for it |
| Interpreter.ScriptInterpreter.Execute | src/payment_communities/bitcoin/interpreter.py:93-119 | The mutable machine returns True exactly when the script is accepted by the step semantics |
| Interpreter.ScriptInterpreter.HandleControlFlow | src/payment_communities/bitcoin/interpreter.py:121-152 | New stacks or failure of IF, NOTIF, ELSE, ENDIF |
| Interpreter.ScriptInterpreter.DispatchOpcode | src/payment_communities/bitcoin/interpreter.py:154-287 | New stack or failure of every other handled opcode |
| Interpreter.ScriptInterpreter.PopItems | src/payment_communities/bitcoin/interpreter.py:294-298 | Pops a counted number of items, top first; a negative count pops none |
| Interpreter.ScriptInterpreter.OpCheckMultiSig | src/payment_communities/bitcoin/interpreter.py:289-334 | New stack or failure of CHECKMULTISIG |
| Interpreter.ScriptInterpreter.MatchLoop | src/payment_communities/bitcoin/interpreter.py:304-329 | The two-index loop computes the greedy matching |
| ScriptTrees.InactiveBlock | src/payment_communities/bitcoin/interpreter.py:99-152 | A balanced block in an inactive branch changes neither stack |
| ScriptTrees.ActiveBlock | src/payment_communities/bitcoin/interpreter.py:99-152 | Running a flattened block in an active branch equals evaluating the tree, failures included |
| ScriptTrees.StructuredAccepts | src/payment_communities/bitcoin/interpreter.py:93-152 | The flat machine accepts a nested script if and only if its structured evaluation ends truthy |
| ScriptTrees.CompletedCloses | src/payment_communities/bitcoin/interpreter.py:111-149 | A run that ends with no open branch had balanced conditionals |
| ScriptTrees.ParseBlock | src/payment_communities/bitcoin/interpreter.py:121-152 | Balanced opcode lists are flattened trees |
| ScriptTrees.AcceptedAreStructured | src/payment_communities/bitcoin/interpreter.py:93-152 | The accepted opcode lists are exactly the flattened trees that evaluate truthy |
| MultiSig.GreedyIsComplete | src/payment_communities/bitcoin/interpreter.py:304-329 | The greedy loop accepts if and only if some strictly order-preserving assignment of signatures to keys verifies throughout |
| MultiSig.MultiSigDecides | src/payment_communities/bitcoin/interpreter.py:289-334 | CHECKMULTISIG for any m of n: the stack items it takes, and true if and only if the non-empty signatures verify under keys in the same order |
| MultiSig.EmptySignatureStops | src/payment_communities/bitcoin/interpreter.py:304-329 | An empty signature raises if and only if it is reached |
| MultiSig.LexicographicOrder | src/payment_communities/bitcoin/contracts.py:37-45 | Keys are sorted as bytes: a prefix first, otherwise by the first difference |
| MultiSig.KeyOrderIrrelevant | src/payment_communities/bitcoin/contracts.py:37-45 | Both parties build the same funding script |
| MultiSig.FundingUnlocks | src/payment_communities/bitcoin/contracts.py:36-45 | Over all stacks and transactions: the two elements on top are valid signatures under the sorted keys in order; a dummy below them is not needed |
| MultiSig.FundingWitness | src/payment_communities/bitcoin/contracts.py:116-121 | The multisig witness unlocks if and only if both signatures verify under the sorted keys in order |
| ScriptTemplates.IntRoundTrip | src/payment_communities/bitcoin/interpreter.py:241 | Every non-negative integer in a script is read back by the signed little-endian decoding |
| ScriptTemplates.ShortestNumber | src/payment_communities/bitcoin/interpreter.py:241 | Integers above 16 are written without superfluous bytes |
| ScriptTemplates.HtlcUnlocks | src/payment_communities/bitcoin/contracts.py:74-102 | Over all stacks and transactions: truthy selector, preimage and receiver signature, or falsy selector, nLockTime at least the locktime with a non-final sequence number, and sender signature, and nothing else |
| ScriptTemplates.RevocableUnlocks | src/payment_communities/protocols/revocation.py:50-81 | Over all stacks and transactions: the revocation key at once, or the local key with a sequence number that is not final, has bit 31 clear and 16 low bits of at least the delay; second-stage outputs likewise |
| ScriptTemplates.PtlcUnlocks | src/payment_communities/protocols/ptlc.py:43-65 | Over all stacks and transactions: the receiver's key at once, or the sender's key with a non-final sequence number and nLockTime at least the locktime |
| ScriptTemplates.AnchorUnlocks | src/payment_communities/protocols/anchors.py:29-45 | Over all stacks and transactions: a non-empty stack and either the key's signature or a relative lock of at least 16 blocks in the sequence number |
| ScriptTemplates.FulfillWitness | src/payment_communities/bitcoin/contracts.py:105-109 | The fulfil witness unlocks if and only if preimage and receiver signature are right |
| ScriptTemplates.RefundWitness | src/payment_communities/bitcoin/contracts.py:112-114 | The refund witness unlocks if and only if the sequence number is not final, nLockTime is at least the locktime and the sender signature right |
| ConvertBits.EmitChunks | src/payment_communities/bitcoin/taproot.py:289-291 | The inner loop emits whole chunks of the pending bits and keeps the rest |
| ConvertBits.ConvertBits | src/payment_communities/bitcoin/taproot.py:276-297 | For all widths, values and both padding modes: the chunks of the concatenated bits, None exactly for out-of-range values or a long or non-zero remainder, despite the masked accumulator |
| ConvertBits.RoundTrip | src/payment_communities/bitcoin/taproot.py:276-297 | For all widths, regrouping with padding and back without it restores the data if and only if the padding is shorter than one value; so always for regrouping to values that are no wider |
| ConvertBits.WideningFails | src/payment_communities/bitcoin/taproot.py:276-297 | Two 5-bit values regrouped to bytes do not come back |
| ConvertBits.SymbolCount | src/payment_communities/bitcoin/taproot.py:276-297 | n bytes give ceil(8n/5) symbols |
| ConvertBits.RegroupedExample | src/payment_communities/bitcoin/taproot.py:276-297 | Two bytes regrouped to four symbols, most significant bits first |
| Bech32m.PolymodLoop | src/payment_communities/bitcoin/taproot.py:261-269 | The loop computes the polynomial remainder defined by absorbing symbols |
| Bech32m.PolymodStep | src/payment_communities/bitcoin/taproot.py:261-269 | The remainder starts at 1; one symbol more is a shift and the symbol |
| Bech32m.ShiftWritten | src/payment_communities/bitcoin/taproot.py:262-268 | The shift is linear, moves the low 25 bits up by five, and turns each higher bit into its generator |
| Bech32m.ReferenceString | src/payment_communities/bitcoin/taproot.py:261-273 | A valid string of BIP 350 leaves the constant 0x2BC830A3 |
| Bech32m.ExpansionParts | src/payment_communities/bitcoin/taproot.py:272-273 | The expanded prefix: the high parts of its characters, a zero, the low five bits of its characters |
| Bech32m.AbsorbLinear | src/payment_communities/bitcoin/taproot.py:261-269 | The checksum of a difference is the difference of the checksums |
| Bech32m.BurstDetected | src/payment_communities/bitcoin/taproot.py:261-269 | Equal-length symbol sequences that differ only within six consecutive positions have different checksums, at any length |
| Bech32m.ChecksumValid | src/payment_communities/bitcoin/taproot.py:306-310 | Appending the checksum gives the constant 0x2BC830A3 |
| Bech32m.ChecksumUnique | src/payment_communities/bitcoin/taproot.py:306-310 | No other six symbols do |
| Bech32m.EncodeBech32m | src/payment_communities/bitcoin/taproot.py:300-311 | The emitted string for every prefix, version and program; None for a version that is no symbol |
| Bech32m.AddressParts | src/payment_communities/bitcoin/taproot.py:300-311 | Behind the separator come the version, the regrouped program and six more symbols |
| Bech32m.WordValue | src/payment_communities/bitcoin/taproot.py:300-311 | A symbol enters the checksum as the number it is |
| Bech32m.AddressText | src/payment_communities/bitcoin/taproot.py:311 | Symbols are written in the character set of BIP 173 |
| Bech32m.AddressChecks | src/payment_communities/bitcoin/taproot.py:300-311 | The symbols of every address leave the constant 0x2BC830A3 behind any sequence that has the high parts, zero and low parts of its prefix |
| Bech32m.AddressInjective | src/payment_communities/bitcoin/taproot.py:300-311 | Under one prefix an address determines version and program |
| Schnorr.VerifyExactly | src/payment_communities/bitcoin/taproot.py:136-184 | Verification accepts exactly s = k + e * p for the points lifted from nonce and key |
| Schnorr.VerifiesWhen | src/payment_communities/bitcoin/taproot.py:136-184 | Acceptance of any key, message and signature, lengths and ranges included, with the hashed bytes written out: tag, tag, r, key, message |
| Schnorr.MessageBound | src/payment_communities/bitcoin/taproot.py:136-184 | A signature valid for two messages forces their two challenge terms to agree modulo the order |
| Schnorr.SignedFrom | src/payment_communities/bitcoin/taproot.py:76-133 | The signature in the bare primitives: which bytes the aux, nonce and challenge hashes take, and how nonce and scalar follow |
| Schnorr.XorBytesAt | src/payment_communities/bitcoin/taproot.py:103-105 | The key is masked by exclusive or, byte by byte |
| Schnorr.AsciiCodes | src/payment_communities/bitcoin/taproot.py:27-33 | Tags are hashed as their ASCII codes |
| Schnorr.ZeroKeyRefused | src/payment_communities/bitcoin/taproot.py:76-133 | A key that is a multiple of the order raises |
| Schnorr.SignedVerifies | src/payment_communities/bitcoin/taproot.py:76-133 | Every signature verifies against the signer's x-only key, through all parities of key and nonce |
| Schnorr.SignatureUnique | src/payment_communities/bitcoin/taproot.py:136-184 | For one nonce coordinate, key and message at most one scalar verifies |
| Schnorr.TweaksAgree | src/payment_communities/bitcoin/taproot.py:187-236 | The tweaked secret key is the discrete logarithm of the tweaked output key, parity included |
| Schnorr.TweakWritten | src/payment_communities/bitcoin/taproot.py:187-236 | Both tweaks add the hash of tag, internal key and root to the even secret, and fail as the code does on zero |
| Schnorr.TweakedSignatureVerifies | src/payment_communities/bitcoin/taproot.py:76-236 | Signing with the tweaked secret key verifies against the tweaked output key |
| Adaptor.ExtractsSecret | src/payment_communities/protocols/ptlc.py:185-231 | Adapting and extracting gives back exactly the secret modulo the order |
| Adaptor.CreatedFrom | src/payment_communities/protocols/ptlc.py:68-107 | The adaptor signature in the bare primitives: what the nonce and the challenge hash, and how nonce point and scalar follow |
| Adaptor.VerifiesAdaptorWhen | src/payment_communities/protocols/ptlc.py:109-148 | Adaptor verification of any input as an equation between scalars, with the hashed bytes written out |
| Adaptor.VerifiesFinalWhen | src/payment_communities/protocols/ptlc.py:150-196 | The same for the final signature |
| Adaptor.CreatedVerifies | src/payment_communities/protocols/ptlc.py:68-147 | A created adaptor signature verifies if and only if neither private key nor challenge nor scalar is zero |
| Adaptor.AdaptedVerifies | src/payment_communities/protocols/ptlc.py:150-196 | Adapted with its secret it is a valid signature if and only if neither private key nor challenge nor final scalar is zero |
| Adaptor.AdaptsExactly | src/payment_communities/protocols/ptlc.py:150-196 | For every key, challenge and candidate: the candidate adapts to a valid signature if and only if it is the secret, corrected by what the helpers replaced |
| Adaptor.OnlySecretAdapts | src/payment_communities/protocols/ptlc.py:150-196 | Where private key, challenge and final scalar are non-zero, a candidate adapts to a valid signature if and only if it is the secret |
| Adaptor.ZeroKeyFails | src/payment_communities/protocols/ptlc.py:68-196 | The zero private key is accepted, but what it creates neither verifies nor adapts |
| Adaptor.RevocationWritten | src/payment_communities/bitcoin/utils.py:201-243 | The derived keys in the bare primitives: each base and per-commitment key weighed by the hash of both, its own first |
| Adaptor.RevocationKeysAgree | src/payment_communities/bitcoin/utils.py:201-243 | A non-zero derived private key opens the derived public key if and only if both secrets and both weights are non-zero modulo the order |
| Adaptor.ZeroSecretFails | src/payment_communities/bitcoin/utils.py:201-243 | A zero base secret is accepted and gives keys that do not match |

## Left out

- SphinxSender.CreatePacket: routes of more than 20 hops are outside its precondition (the code does not check the limit); node keys are 33 bytes long, the other forms that `_parse_node_pubkey` accepts are not modelled, and the random ephemeral key is a parameter.
- ShachainReceiver.Receiver.AddSecret: requires an index below 2^48, the documented range, which the code does not check.
- Shachain.DeriveFromAncestor: requires an ancestor index in the documented range, which the code does not check.
- Shachain.CanDeriveIsInterval: requires a source index in the documented range; target indices are unrestricted.
- ShachainReceiver.Receiver.GetSecret: secrets are kept as bytes, not as hex strings, and the dictionary and its sorted keys are scanned in an arbitrary order.
- ShachainRuns.HonestAnswers: of runs with several foreign secrets only the single steps are characterised (`ShachainRuns.NewAncestorAnswers`, `ShachainRuns.SurvivesExactly`).
- Channel.PaymentChannel.AddHtlc: an HTLC is stored as a value, so the alias that the code writes into the caller's object, and the preimage and state it sets on resolved objects, are not captured; an absent offerer is the empty alias.
- Channel.PaymentChannel.RedeemHtlc: the preimage, flag and state set on the removed HTLC object are not captured.
- Channel.PaymentChannel.RefundHtlc: the flag and state set on the removed HTLC object are not captured.
- RouteSearch.PopMinimum: ties are broken arbitrarily, not by alias and path.
- RouteOnNodes.Pay: requires ids that are in use nowhere. HTLC ids and revocation secrets are given as functions. Amounts and locktimes are those of the route; the demonstration in `cli/demos/routing.py` instead locks the bare payment amount on every hop, without the forwarder's fee, and sets its own locktimes.
- RouteOnNodes.LockRoute: after a failure in the middle the earlier locks stay, as in the code, and nothing more is stated about them.
- Node.LightningNode.RouteHtlcPayment: the random revocation secret is a parameter; invoices and addresses are left out.
- Interpreter.ScriptInterpreter.Execute: scripts are restricted to the opcodes the dispatcher handles, because others are skipped; script parsing, the signature hash and a primitive that raises instead of answering are outside the model.
- ScriptTemplates.IntRoundTrip: negative integers in scripts are not modelled.
- Bech32m.EncodeBech32m: requires a non-negative version; a negative one would index the character set from its end.
- Schnorr.SignedVerifies: the auxiliary randomness is a parameter; how the curve library represents the point at infinity is taken as the group's law.
- Adaptor.CreatedVerifies: private keys are integers; a byte string above the group order is hashed unreduced by the code. The optional payment-point argument of the verifier is left out.
- The JSON onion, the BIP 340 adaptor variant, the revocation store and the breach transactions: no new proof content, or no promise to prove.
- Witness-program classification, transaction builders, swaps, watchtower, Eltoo and leases: thin glue over the pieces above.
- JSON and SQLite storage, the HTTP client, the daemon and the command line: input and output.
