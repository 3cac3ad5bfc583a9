# DarkNet mesh: a verified model

DarkNet is a LoRa mesh. A root node collects link reports, computes shortest
routes and broadcasts them; nodes cache routes with a time to live; every node
talks to its radio over a framed serial link with a CRC; relays hold tables of
recently heard neighbours, of nonces and of packets waiting for absent nodes, and
take signed policy changes from an administrator. This project models that logic
in Dafny and proves what the code is for.

Code that updates fields or arrays in place is modelled by classes with methods
and loops, each method proved equal to a function of the old state; the theorems
are lemmas about those functions, mostly over whole runs.

- `Common.dfy`: options, machine integers, 32-bit clock subtraction, set sizes.
- `Walks.dfy`, `LinkGraph.dfy`, `Dijkstra.dfy`, `RouteProperties.dfy`,
  `RootRouter.dfy`: the root's topology and its shortest routes.
- `RouteTable.dfy`, `MessageRouter.dfy`: a node's cache and message forwarding.
- `Gf2.dfy`, `Crc8.dfy`: polynomials over GF(2) and the serial CRC. The generator
  is the header error control polynomial of ITU-T I.432.1 section 4.3.2; initial
  value 0, no coset added.
- `Frames.dfy`, `FrameParsers.dfy`: the frame format, the state machine that
  recovers frames from arbitrary bytes, and its Python and firmware implementations.
- `Codec.dfy`, `RouteTransport.dfy`: packet, LINK and RT encodings, and a route
  table's whole way from the root's router into another node's cache.
- `LruTable.dfy`, `Neighbours.dfy`, `StoreForward.dfy`, `Duty.dfy`,
  `RelayControl.dfy`, `RelayEngine.dfy`: the relay's policy engine.
- `RelayAdmin.dfy`, `ControlChannel.dfy`: the administrator's nonces, and the
  control protocol end to end.

## How the model reads the code

- Clocks, random ids and the verdict of the message authentication code are
  parameters. Python clocks and ages are `real`; firmware clocks are 32-bit values
  and differences wrap (`Common.Sub32`).
- Link costs are integers, as the code computes them, and so are distances. The
  heap is a multiset that hands out a least `(cost, node)` pair; the neighbours of
  a node are visited in an arbitrary order, so what is proved holds for every
  dictionary order.
- Node ids are natural numbers; id 0 counts as "no gateway" wherever the code tests
  a gateway for truth.
- `|=` of a length byte shifted by eight onto a length below 256 is addition.
- `SF_QUEUE_HARD_MAX`, `SF_TTL_HARD_MAX_S` and the longest transmission are
  parameters; the header that defines the first two is not part of this model. Runs
  from power-on assume that the boot limit of 8 packets fits the first.
- `s_dropped_count` and `s_relayed_count` are shared counters in the firmware;
  here each class keeps its own share.
- Table claims assume a clock that is nonzero, does not go back, and stays below
  2^32 - 1, because stamp 0 marks an empty slot.

## Where the code does not do what one might expect

- The firmware parser forgets every second AA of a row. A frame after noise is
  recognised exactly when the noise ends in an even number of AA bytes
  (`Frames.WithoutResyncIffEven`); the Python parser has no such condition
  (`Frames.Completeness`, `Frames.StrayStartSeparates`).
- The CRC covers the payload only: a changed type byte goes unnoticed
  (`Frames.TypeIsUnprotected`).
- With a queue limit of 0 and nothing queued, an enqueue makes the depth counter
  wrong, and only then (`StoreForward.DepthSurvivesIff`).
- Replay protection holds for a set of sources exactly when there are at most 16
  of them (`RelayControl.ReplayProtectedIff`). A source pushed out of the table may
  replay anything (`RelayControl.AcceptsIff`), and 17 sources suffice
  (`RelayControl.SeventeenSourcesReplay`).
- The duty cap bounds each window, but a sliding minute may carry twice a window's
  bound. For every cap and every longest transmission for which two full windows fit
  a minute, some run does so (`Duty.SlidingBound`, `Duty.SlidingBoundAttained`). A
  flush hands over the queued packets whatever the budget says and leaves the budget
  as it was (`RelayEngine.RelayEngine.OnHello`); the transmit function it calls is
  not part of this model.
- The queue may hold a packet for a neighbour the relay knows: after a message was
  held, the policy left store-and-forward mode, and its destination was heard
  (`RelayEngine.StrandedFromPowerOn`). `RelayEngine.QueueOnlyForUnknown` says exactly
  when that does not happen.
- `expire` is invisible under a sequence of clock readings exactly when none of them
  is earlier than one before it (`RouteTable.ExpiryInvisibleIff`).
- Without a state file, nonces keep increasing over a restart exactly when the wall
  clock has overtaken the counter (`RelayAdmin.RestartWithoutFile`).

## Model

| member | source | states |
|---|---|---|
| LinkGraph.RssiToCost | routing/router.py:71-77 | costs are never below 1; readings within 50 dBm of zero cost 1 and each dBm beyond, on either side, costs one more |
| LinkGraph.RunIsPairwise | routing/router.py:39-62 | after any run of reports and expiries, a link is present with exactly the data of the pair's latest report, unless a later expiry found it too old; other pairs have no influence |
| LinkGraph.LatestReportCounts | routing/router.py:39-62 | after any run the pair's last report decides: the link is present exactly if every later expiry found that report young enough, and then carries its signal strength, signal-to-noise ratio, time and cost |
| LinkGraph.NeverReported | routing/router.py:39-62 | a pair nobody reported is not linked |
| LinkGraph.PairHistorySymmetric | routing/router.py:39-50 | a pair's history is the same seen from either end |
| LinkGraph.RunIsWellFormed | routing/router.py:39-62 | every sequence of `update_link` and `expire_links` leaves cost, signal and `last_seen` equal in both directions |
| LinkGraph.ExpiredLinks | routing/router.py:52-62 | expiry keeps exactly the links not older than the limit and keeps the graph symmetric |
| LinkGraph.LinkStateGraph.UpdateLink | routing/router.py:39-50 | both directions carry the report's own data, every other pair stays |
| LinkGraph.LinkStateGraph.DropStale | routing/router.py:56-61 | one node's stale neighbours, and no others, are deleted |
| LinkGraph.LinkStateGraph.ExpireLinks | routing/router.py:52-62 | the nested loops delete exactly the stale links of every node |
| Dijkstra.HeapPop | routing/router.py:97 | the popped entry costs less than all others, or as much with an id no greater, and exactly one copy leaves the heap |
| Dijkstra.DropStale | routing/router.py:99-100 | skipping a stale entry keeps the search invariant |
| Dijkstra.Settle | routing/router.py:97-101 | an unvisited least entry carries the node's true distance, and settles it last in (distance, id) order |
| Dijkstra.LookAtImproved | routing/router.py:103-109 | recording an improvement keeps the invariant, tie-break included, and never touches a visited node |
| Dijkstra.LookAtUnimproved | routing/router.py:103-105 | leaving a distance alone keeps the invariant, ties included |
| Dijkstra.RelaxNeighbours | routing/router.py:103-109 | the inner loop, in any neighbour order, leaves every edge of the settled node relaxed |
| Dijkstra.Dijkstra | routing/router.py:85-131 | for positive costs the search terminates and returns the route map of the graph |
| Dijkstra.TraceBack | routing/router.py:116-123 | the trace-back terminates at the child of the source above the destination |
| Dijkstra.BuildRouteTable | routing/router.py:111-131 | exactly the reached nodes other than the source get a route, with that child as next hop |
| Dijkstra.DistIsLowerBound | routing/router.py:96-109 | every walk from the source ends in a reached node and costs no less than its distance |
| Dijkstra.TreePathIsWalk | routing/router.py:111-129 | following `prev` up gives a walk of exactly the recorded cost and hop count |
| Dijkstra.RouteIsRealised | routing/router.py:111-129 | every route has a simple walk of its cost and hops whose second node is the next hop |
| Dijkstra.LeastPredecessor | routing/router.py:96-129 | the tie-break on the routes themselves: among all nodes that reach a destination at its cost its route comes through the nearest, and among those through the smallest id; next hop and hops are inherited from there |
| Dijkstra.WalkIsNoCheaper | routing/router.py:85-131 | whatever a walk reaches is routed at no greater cost |
| Dijkstra.RoutesAreShortest | routing/router.py:85-131 | routes exist for exactly the reachable nodes other than the source, each cost the minimum over all walks |
| Dijkstra.CanonicalParentUnique | routing/router.py:103-109 | the least (distance, id) predecessor is the only one a finished search can record |
| Dijkstra.RouteMapUnique | routing/router.py:103-131 | the route map is a function of graph and source, whatever the iteration order |
| RouteProperties.NextHopRemainder | routing/router.py:116-129 | the next hop is a neighbour, and its own route to the destination costs the rest |
| RouteProperties.HopByHopDelivers | routing/router.py:85-131 | handing a message along each node's own next hop delivers it at exactly the promised cost |
| RouteProperties.CostsAgreeBothWays | routing/router.py:85-131 | in a symmetric graph both directions are routed or neither, at equal cost |
| RouteProperties.HopsBelowNodeCount | routing/router.py:107-128 | hop counts stay below the number of nodes, and routes name only known nodes |
| RouteProperties.HopsFitByte | node/darknet_node.py:627-630 | with byte ids, destination, next hop and hops of every route fit a byte |
| RootRouter.RootRouter.constructor | routing/router.py:242-246 | an empty table is coherent with an empty graph |
| RootRouter.RootRouter.ApplyLinkUpdate | routing/router.py:248-261 | a report applies its entries in order, with defaults for absent fields, and marks the cache dirty |
| RootRouter.ReportedNeighbour | routing/router.py:253-259 | each listed neighbour's last entry is on its link to the reporter, both ways, -100 dBm and 0 dB standing in for absent fields |
| RootRouter.UnreportedLink | routing/router.py:253-259 | links the report does not list stay |
| RootRouter.RootRouter.ApplyHello | routing/router.py:263-266 | a hello records the link to the root and marks the cache dirty |
| RootRouter.RootRouter.Recalculate | routing/router.py:268-288 | afterwards the routes are those of the graph; a dirty cache is computed from links at most 120 seconds old; true exactly when the routes changed |
| RootRouter.EmptyGraphHasNoRoutes | routing/router.py:242-246 | the route map of the empty graph is empty |
| RouteTable.DirectAnswers | routing/router.py:165-200 | a direct neighbour answers for itself for 300 seconds and for nobody else |
| RouteTable.RootTableAnswers | routing/router.py:149-200 | a received table replaces all routes for 300 seconds, and the gateway only if the new one is not 0 |
| RouteTable.ExpiryIsInvisibleFrom | routing/router.py:180-211 | tables with the same live routes answer alike over a run with and without its `expire` calls |
| RouteTable.LazyExpiryRefinesEager | routing/router.py:149-211 | deleting every `expire` call from a run leaves every `next_hop` answer unchanged |
| RouteTable.ClockSetBackIsVisible | routing/router.py:180-211 | for any readings of which one is earlier than the one before it, a table and a run with these readings whose answers its one `expire` call changes |
| RouteTable.ExpiryInvisibleIff | routing/router.py:180-211 | over a sequence of clock readings, `expire` calls never show in any run from any table exactly when no reading is earlier than one before it |
| RouteTable.RouteTable.UpdateFromRoot | routing/router.py:149-163 | the loop stores exactly the received routes with defaults and a fresh expiry |
| RouteTable.RouteTable.AddDirect | routing/router.py:165-172 | one direct route is added or replaced |
| RouteTable.RouteTable.SetDefaultGateway | routing/router.py:174-178 | the first gateway stays |
| RouteTable.RouteTable.NextHop | routing/router.py:180-200 | live route, else nonzero gateway, else none |
| RouteTable.RouteTable.Expire | routing/router.py:206-211 | exactly the routes whose expiry has passed are deleted |
| MessageRouter.ForwardsBelowTtl | routing/router.py:350-375 | whatever the tables, a message is forwarded fewer times than its TTL |
| MessageRouter.ForwardingKeepsBudget | routing/router.py:350-375 | each forward moves one unit from TTL to hops and changes nothing else but the next hop |
| MessageRouter.BuiltMessageTravels | routing/router.py:322-375 | a built message keeps hops + ttl = 10 and is forwarded at most 9 times, over arbitrary tables |
| MessageRouter.LoopSpendsBudget | routing/router.py:350-375 | in a routing loop it is forwarded exactly ttl - 1 times |
| MessageRouter.TravelsAlong | routing/router.py:350-375 | along nodes whose tables lead to the destination a message is passed on until its budget or the path ends, always addressed to the next node |
| MessageRouter.DeliveredWithinTenLinks | routing/router.py:322-375 | a message built for a destination to which the tables lead reaches it exactly if the path has at most ten links |
| MessageRouter.BuiltMeans | routing/router.py:322-341 | no message without a next hop; else from here, to there, by the table's next hop, 0 hops, TTL 10 |
| MessageRouter.ForwardedMeans | routing/router.py:350-375 | stopped exactly by a spent TTL, at the destination, or without a route; else sent to the table's next hop |
| MessageRouter.MessageRouter.BuildMessage | routing/router.py:322-341 | a message starts with 0 hops, ttl 10 and the table's next hop, or is not built |
| MessageRouter.MessageRouter.Forward | routing/router.py:350-375 | refused when the TTL is used up, here is the destination, or there is no route |
| Gf2.DivisionUnique | protocol/protocol.py:297-304 | quotient and remainder by a monic generator are unique |
| Gf2.RemDivides | protocol/protocol.py:301-303 | a shift register with feedback computes the remainder |
| Gf2.RemLinear | protocol/protocol.py:297-304 | remainders are linear |
| Gf2.BurstIsNoMultiple | protocol/protocol.py:297-304 | a nonzero pattern no wider than the generator's degree is no multiple of it |
| Gf2.RemKeepsParity | protocol/protocol.py:297-304 | division by a generator of even weight keeps parity |
| Crc8.ComputeCrc | protocol/protocol.py:297-304 | the nested loops compute the register function |
| Crc8.KnownValues | protocol/protocol.py:297-304 | known values that tell the generator: 01 gives 07, 80 gives 89, nothing gives 0 |
| Crc8.ShiftIsFeed | src/main.cpp:33-34 | one turn of the bit loop is one clock of the generator's shift register |
| Crc8.RegisterIsRem | src/main.cpp:29-37 | the byte loop leaves the remainder clocked eight more times |
| Crc8.CrcIsRemainder | protocol/protocol.py:297-304 | the CRC is the remainder of data times x^8 modulo x^8+x^2+x+1, and nothing else is |
| Crc8.AcceptedIffMultiple | protocol/protocol.py:394-397 | payload and CRC belong together exactly when they form a multiple of the generator |
| Crc8.CrcLinear | protocol/protocol.py:297-304 | on equal lengths the CRC of a sum is the sum of the CRCs |
| Crc8.BurstRejected | protocol/protocol.py:394-397 | any corruption within eight neighbouring bits of payload and CRC is rejected |
| Crc8.OddFlipsRejected | protocol/protocol.py:394-397 | any odd number of flipped bits is rejected |
| Crc8.ByteChangeRejected | protocol/protocol.py:394-397 | any change of a single byte of payload or CRC is rejected |
| Frames.EncodeLayout | protocol/protocol.py:307-313 | AA 55, type, length low byte first, payload, CRC of the payload |
| Frames.RunAppend | protocol/protocol.py:361-364 | state and output over a concatenation are those of its parts in turn |
| Frames.ChunksDoNotMatter | protocol/protocol.py:361-364 | feeding a stream in chunks yields what feeding it whole does |
| Frames.PendingStep | protocol/protocol.py:366-402 | a byte extends the frame under way, restarts it, or drops it |
| Frames.EmissionStep | protocol/protocol.py:394-397 | an emitted frame's encoding is exactly the pending bytes and the last one |
| Frames.Soundness | protocol/protocol.py:361-402 | any stream, garbage included, is gaps and the encodings of exactly the emitted frames in order, without overlap |
| Frames.EmittedFrameJustEnded | protocol/protocol.py:394-397 | whenever a frame is emitted the bytes just consumed end with exactly its encoding, and the earlier frames lie wholly before it |
| Frames.EmittedWithinLimit | protocol/protocol.py:381-385 | nothing longer than the limit is emitted |
| Frames.FrameIsEmitted | protocol/protocol.py:366-402 | a frame arriving while the parser waits is emitted |
| Frames.OverlongIsDropped | protocol/protocol.py:381-385 | a header announcing more than the limit is dropped at once, and the parser waits |
| Frames.Completeness | protocol/protocol.py:361-402 | frames between noise without a start pair come out exactly, in order; for the firmware's parser too, if every noise string ends in an even number of AA bytes |
| Frames.MismatchIsDropped | protocol/protocol.py:394-397 | a frame whose checksum does not match is dropped and the parser is idle again |
| Frames.BurstIsDropped | protocol/protocol.py:394-397 | a frame corrupted within eight neighbouring bits of payload and checksum is not emitted |
| Frames.TypeIsUnprotected | protocol/protocol.py:395-396 | a changed type byte goes unnoticed |
| Frames.QuietCountsDown | protocol/protocol.py:366-402 | every byte other than AA brings any state closer to idle |
| Frames.SelfStabilises | protocol/protocol.py:366-402 | from any state, limit + 5 bytes without AA leave the parser idle and the next frame is decoded |
| Frames.QuietBoundIsTight | protocol/protocol.py:366-402 | limit + 4 such bytes do not suffice |
| Frames.NoiseWithoutResync | src/main.cpp:95-100 | in the firmware, noise ending in an odd number of AA bytes leaves the parser past the first start byte |
| Frames.WithoutResyncIffEven | src/main.cpp:93-131 | the firmware recognises a frame after noise exactly when the noise ends in an even number of AA bytes |
| Frames.StrayStartSeparates | src/main.cpp:98-99 | an odd row of stray AA bytes before a frame: the Python parser emits the frame, the firmware loses it |
| FrameParsers.FrameParser.FeedByte | protocol/protocol.py:366-402 | each byte takes the fields through one step of the state machine |
| FrameParsers.FrameParser.Feed | protocol/protocol.py:361-364 | a chunk yields the machine's output; the buffer never exceeds the limit |
| FrameParsers.LengthLimits | src/main.cpp:107-112 | payloads of up to 256 bytes pass the Python parser, up to 240 the firmware's; longer ones are dropped at the header |
| FrameParsers.TransmitsMeans | src/main.cpp:118-122 | the firmware transmits exactly the payloads of valid frames of type S |
| FrameParsers.FirmwareParser.ProcessSerialByte | src/main.cpp:93-131 | each byte takes globals and buffer through one step; SEND frames are transmitted |
| FrameParsers.FirmwareParser.ProcessSerial | src/main.cpp:149-151 | a run transmits exactly the payloads of the SEND frames recognised |
| Codec.UnpackBuilt | protocol/protocol.py:75-106 | a built packet is read back, whatever bytes follow |
| Codec.UnpackedWasBuilt | protocol/protocol.py:86-106 | whatever is read starts with that packet's own encoding |
| Codec.PacketLayout | protocol/protocol.py:67-106 | where each header field stands |
| Codec.UnpackIff | protocol/protocol.py:86-97 | a buffer is refused exactly if too short for header or payload, or with another magic number or version |
| Codec.PackRt | protocol/protocol.py:213-220 | the loop packs gateway, count and the first 75 routes |
| Codec.UnpackRt | protocol/protocol.py:222-234 | the loop reads as many whole entries as announced and present; later duplicates win |
| Codec.DecodeEncoded | protocol/protocol.py:213-234 | entries are read back wherever they stand in a payload |
| Codec.RtRoundTrip | protocol/protocol.py:213-234 | a packed table is read back as the dictionary of its first 75 routes |
| Codec.TableHoldsEntries | protocol/protocol.py:226-233 | with distinct destinations the dictionary holds exactly the entries |
| Codec.LastEntryWins | protocol/protocol.py:226-233 | a later entry for the same destination overwrites the earlier |
| Codec.RtLayout | protocol/protocol.py:213-220 | gateway, count, then destination, next hop and hops of the first 75 routes |
| Codec.RtReads | protocol/protocol.py:222-234 | what any RT payload, well-formed or not, is read as |
| Codec.PackLink | protocol/protocol.py:185-194 | the loop packs the first 75 neighbours with clamped signed bytes |
| Codec.UnpackLink | protocol/protocol.py:196-209 | the loop reads as many whole entries as announced and present |
| Codec.LinkRoundTrip | protocol/protocol.py:185-209 | neighbours come back in order with signal values clamped to signed bytes |
| Codec.LinkLayout | protocol/protocol.py:185-194 | count, then id and two clamped signed bytes for each of the first 75 neighbours |
| Codec.LinkReads | protocol/protocol.py:196-209 | what any LINK payload, well-formed or not, is read as |
| RouteTransport.Node.HandleFrame | node/darknet_node.py:715-722 | a RECV frame is unwrapped and handed through header check, gateway discovery, duplicate check and RT handling |
| RouteTransport.OnlyPacketsCount | node/darknet_node.py:329-370 | frames of other types, too short, with an invalid packet or our own change nothing; any other packet's id and source are remembered |
| RouteTransport.OnlyRoutesChangeTheTable | node/darknet_node.py:361-389 | a node with a gateway changes its table only at an unseen packet of type 8 with at least two payload bytes |
| RouteTransport.RoutesReplaceTheTable | node/darknet_node.py:479-485 | such a packet replaces all routes by its entries at cost 0 for 300 seconds, and the gateway by its own unless that is 0 |
| RouteTransport.FirstHeardIsGateway | node/darknet_node.py:361-363 | a node without a gateway takes the first node heard as gateway and as direct neighbour, keeping its other routes |
| RouteTransport.RepeatedFrameIsIgnored | node/darknet_node.py:365-370 | the same frame again, whenever, changes nothing more |
| RouteTransport.RxPayloadParses | protocol/protocol.py:324-330 | signal metadata and packet come back from a RECV payload |
| RouteTransport.RootTransmits | src/main.cpp:118-122 | the root's radio transmits exactly the packet |
| RouteTransport.SerialOutMeans | node/darknet_node.py:311-325 | a packet of up to 240 bytes is written as one frame of type S, a longer one not at all |
| RouteTransport.RtPacketMeans | node/darknet_node.py:637-638 | the table packet goes from the root to everyone, type 8, 0 hops, TTL 5, no flags, the root as gateway |
| RouteTransport.RxPayloadLayout | src/main.cpp:53-65 | signal strength and ratio as 16-bit two's complement, low byte first, then the packet |
| RouteTransport.HandledRt | node/darknet_node.py:479-485 | handling an RT payload leaves the root's next hops and hop counts, cost 0, for the first 75 destinations |
| RouteTransport.RouteTableTransport | node/darknet_node.py:624-638 | the root's shortest routes arrive in another node's table through both parsers: next hop and hops for each of the first 75 destinations, nothing else; the root becomes gateway unless its id is 0 |
| RouteTransport.TransportedAnswers | routing/router.py:180-193 | afterwards each of at most 75 destinations is answered with the root's next hop for 300 seconds |
| LruTable.FindSlot | src/relay_control.cpp:259-267 | the scan finds the id's own slot, else the first empty, else the first oldest |
| LruTable.PutTracks | src/relay_control.cpp:253-270 | ids stay distinct, kept entries are the latest, and what is forgotten is no more recent than anything kept |
| LruTable.RecentIsHeld | src/relay_control.cpp:253-270 | an id is held unless as many others as there are slots came at or after it |
| LruTable.FewIdsAreHeld | src/relay_control.cpp:347-371 | with no more ids than slots nothing is forgotten |
| LruTable.RunTracks | src/relay_control.cpp:253-270 | all this over every run from an empty table |
| LruTable.FirstIsForgotten | src/relay_control.cpp:253-270 | one id more than slots, in turn: the first is forgotten |
| Neighbours.NeighbourTable.RememberNeighbour | src/relay_control.cpp:253-270 | one slot is rewritten, the one the scan selects |
| Neighbours.NeighbourTable.NeighbourKnown | src/relay_control.cpp:272-281 | true exactly when some slot holds the id, fresh within ten minutes |
| Neighbours.KnownIff | src/relay_control.cpp:253-281 | over every run, known exactly if still held and last heard within ten minutes |
| Neighbours.RecentIsKnown | src/relay_control.cpp:253-281 | heard within ten minutes with fewer than 32 others at or after it: always known |
| Neighbours.CrowdPushesOut | src/relay_control.cpp:253-281 | and no more can be promised: 32 others heard later push a node out within its ten minutes |
| Neighbours.MemoryIsLatest | src/relay_control.cpp:268-269 | what counts is the latest hearing of each id |
| StoreForward.EvictionTakesOldest | src/relay_control.cpp:285-297 | the eviction scan finds a held packet no younger than any other |
| StoreForward.EnqueueConserves | src/relay_control.cpp:284-309 | an enqueue always finds a slot; the packet is held and nothing is lost but that victim at the limit |
| StoreForward.DepthSurvivesIff | src/relay_control.cpp:285-306 | the depth counter stays right exactly unless the limit is 0 and the queue empty |
| StoreForward.LimitZeroLosesCount | src/relay_control.cpp:285-306 | then one packet is held and the counter says none |
| StoreForward.DropConserves | src/relay_control.cpp:311-335 | a flush or collection removes precisely the selected packets and counts them |
| StoreForward.RunConserves | src/relay_control.cpp:284-335 | over every run the depth is the number of occupied slots and every accepted packet is exactly one of held, flushed, expired or evicted |
| StoreForward.SfQueue.EvictOldest | src/relay_control.cpp:286-297 | the loop frees the first oldest occupied slot |
| StoreForward.SfQueue.Enqueue | src/relay_control.cpp:284-309 | making room, then the first free slot takes the packet |
| StoreForward.SfQueue.FlushFor | src/relay_control.cpp:311-322 | without a transmitter nothing changes; with one, the destination's slots are freed and successes counted |
| StoreForward.TakenIsBounded | src/relay_control.cpp:316-318 | the relayed count rises by at most the packets flushed, by all of them if every transmission succeeds, by none if none does |
| StoreForward.SfQueue.Gc | src/relay_control.cpp:324-335 | expired slots are freed and counted, with the time to live in wrapping milliseconds |
| Duty.DutyMeter.DutyAllows | src/relay_control.cpp:338-344 | allowed exactly without a cap, 60 seconds after the window's start even across a clock wrap, or below 600 ms per percent |
| Duty.DutyMeter.NoteTx | src/relay_control.cpp:189-197 | a note past the window opens a new one; airtime adds up |
| Duty.OneNote | src/relay_control.cpp:189-197 | a permitted transmission leaves the window within its bound |
| Duty.WindowWithinBound | src/relay_control.cpp:189-197 | over every disciplined run a window carries at most 600p - 1 plus the longest transmission |
| Duty.SlidingBound | src/relay_control.cpp:338-344 | any 60 second interval carries at most twice that |
| Duty.SlidingBoundAttained | src/relay_control.cpp:338-344 | for every cap and longest transmission for which two full windows fit 60 seconds, a run with one transmission in the air at a time attains it |
| RelayControl.NonceTableTracks | src/relay_control.cpp:347-371 | over every run, with any number of sources, the table holds the last nonces accepted, and what it has forgotten is no more recent than what it holds |
| RelayControl.AcceptsIff | src/relay_control.cpp:347-371 | after any run a nonce is refused exactly when its source is still held and it does not exceed the last one accepted |
| RelayControl.ReplayNeedsCrowd | src/relay_control.cpp:347-371 | a replay is accepted only after a table's worth of other sources were accepted at or after the replayed one |
| RelayControl.FewAreProtected | src/relay_control.cpp:347-371 | with no more sources than slots a nonce is accepted exactly when it exceeds every earlier one of its source |
| RelayControl.BurstForgetsFirst | src/relay_control.cpp:347-371 | one source more than slots, heard in turn: the first one's nonce is accepted a second time |
| RelayControl.SeventeenSourcesReplay | src/relay_control.cpp:347-371 | the concrete run: nonce 5 from sources 0 to 16, then nonce 5 from source 0 is accepted again |
| RelayControl.ReplayProtectedIff | src/relay_control.cpp:347-371 | a set of sources is protected from replay in all its runs exactly when the table has a slot for each |
| RelayControl.RelayController.CheckAndRecordNonce | src/relay_control.cpp:347-371 | verdict, table and greatest accepted nonce follow the scan |
| RelayControl.RelayController.ApplyCtrl | src/relay_control.cpp:240-250 | every field is replaced, limits clipped, an unknown mode ignored |
| RelayControl.AppliedEnacts | src/relay_control.cpp:240-250 | the resulting policy does what the packet asks, field by field, within the hard limits; an invalid mode leaves only the mode |
| RelayControl.RelayController.HandlePacket | src/relay_control.cpp:153-180 | only well-shaped, addressed, authentic, fresh packets change the policy, and exactly these are answered with a status packet |
| RelayControl.GenuineMeans | src/relay_control.cpp:153-170 | type 0C, both lengths, our id or 255, and the verified key |
| RelayControl.LatestWins | src/relay_control.cpp:153-180 | after any lossy, repeated, reordered delivery from one administrator the relay does in every field what the packet with the greatest nonce delivered asks, and reports that nonce |
| RelayControl.OrderDoesNotMatter | src/relay_control.cpp:153-180 | two relays given the same genuine packets in any order and number run the same policy |
| RelayEngine.RelayEngine.ShouldRelay | src/relay_control.cpp:96-151 | answer, queue and drop counter follow the verdict on policy, signal, budget, type and neighbour |
| RelayEngine.DecisionMeans | src/relay_control.cpp:96-151 | which packets are relayed, which dropped and counted, which held, mode by mode |
| RelayEngine.RelaysToRecentlyHeard | src/relay_control.cpp:126-146 | after any run from power-on, routed and store-and-forward mode relay exactly broadcasts and packets for nodes still held and last heard within ten minutes |
| RelayEngine.RelaysToActiveNeighbour | src/relay_control.cpp:126-146 | a packet past the gates for a node heard within ten minutes, with fewer than 32 others since, is relayed |
| RelayEngine.MaskAdmits | node/relay_admin.py:75-77 | a mask composed from type bits admits exactly those types, up to multiples of 32 |
| RelayEngine.PresentHolds | src/relay_control.cpp:134-146 | only a message for an unknown node in store-and-forward mode is held; an oldest packet makes room at the limit |
| RelayEngine.RelayEngine.OnHello | src/relay_control.cpp:182-187 | the sender is remembered and, in store-and-forward mode, its packets flushed and the successful ones counted, whatever the duty budget, which stays as it was |
| RelayEngine.HelloFlushes | src/relay_control.cpp:182-187 | its sender is known from then on, and exactly its packets leave the queue, in store-and-forward mode with a transmitter |
| RelayEngine.RelayEngine.Collect | src/relay_control.cpp:208-213 | a due collection drops what has outlived the current policy's limit |
| RelayEngine.CollectDropsExpired | src/relay_control.cpp:324-335 | exactly the packets older than the policy's time to live leave the queue |
| RelayEngine.RelayEngine.OnCtrl | src/relay_control.cpp:153-180 | an accepted control packet changes the policy and nothing else; any other changes neither |
| RelayEngine.CtrlEnacts | src/relay_control.cpp:240-250 | a control packet changes the policy as it asks, and neither table nor queue |
| RelayEngine.KnownEarlier | src/relay_control.cpp:272-281 | time alone makes nobody known |
| RelayEngine.StepIsSoundIff | src/relay_control.cpp:96-187 | one event leaves nothing held for a known neighbour and the depth right, exactly when it does not hold a packet while the limit is 0 and the queue empty, and does not hear a node whose packets are held but would not be flushed |
| RelayEngine.QueueOnlyForUnknown | src/relay_control.cpp:96-187 | over every run from power-on, through every policy change, that invariant holds at every moment exactly when every event met that condition |
| RelayEngine.PolicyChangeStrands | src/relay_control.cpp:182-187 | leaving store-and-forward mode, hearing a node with held packets, and coming back leaves them held for a known neighbour |
| RelayEngine.StrandedFromPowerOn | src/relay_control.cpp:182-187 | a run from power-on in which that happens |
| RelayAdmin.RelayAdmin.constructor | node/relay_admin.py:156-168 | the counter starts from the state file if there is one to read, else from the clock |
| RelayAdmin.RelayAdmin.SaveNonce | node/relay_admin.py:170-176 | the file holds the counter |
| RelayAdmin.RelayAdmin.NextNonce | node/relay_admin.py:178-181 | counted and saved before use |
| RelayAdmin.RelayAdmin.BuildNonce | node/relay_admin.py:206 | the packet field is the counter modulo 2^32 |
| RelayAdmin.NoncesIncrease | node/relay_admin.py:159-181 | with a state file, nonces strictly increase across restarts and crashes below 2^32 |
| RelayAdmin.BuildsCountUp | node/relay_admin.py:178-206 | packets built in a row carry consecutive nonces modulo 2^32 |
| RelayAdmin.FirstNonce | node/relay_admin.py:159-181 | the first nonce after a start is one above the file, or above the clock without one |
| RelayAdmin.CrashesSkipAtMostOne | node/relay_admin.py:170-181 | a restart or a crash before saving skips no nonce, a crash after saving skips one; none is repeated |
| RelayAdmin.RestartWithoutFile | node/relay_admin.py:159-164 | without one, exactly when the clock has overtaken the counter |
| RelayAdmin.WrapBreaksOrder | node/relay_admin.py:206 | consecutive fields increase exactly unless the later one wraps to 0 |
| ControlChannel.LastIssuedWins | src/relay_control.cpp:347-371 | administrator, network and relay together, amid any other traffic: the relay does in every field what the most recently issued packet that reached it and was meant for it asks |

## Left out

- Serial ports, sockets, HTTP, threads, timers, logging and files: the model takes
  bytes, clock readings and the state file's contents as values.
- HMAC-SHA256 and Ed25519: a packet carries the verdict of its verification; no
  cryptographic claim is made.
- HELLO, BEACON, STATE, ACK and MSG payloads, and the byte layout of RelayCtrl and
  RelayStatus: fixed-offset encodings that would only add easy round trips.
- The forwarding half of `_handle_msg`: its duplicate check always finds the key
  recorded before dispatch, so it never runs. `MessageRouter` models forwarding.
- `send_message` in the daemon, NETSTATE handling (its state and encodings are not
  defined in the repository), the user interface, `NodeMap`.
- `emit_status` and the timers of `relay_ctrl_loop`: what a status packet contains
  and when reports and collections are due.
- Agreement of packet type numbers: 0x0D in protocol/protocol.py and 0x0C in
  protocol/protocol.h name RELAY_CTRL, so none is claimed.
- What the root's table means to other nodes: the root broadcasts its own next
  hops to everyone, so hop-by-hop delivery is proved for each node's own run of
  `dijkstra`, not for the tables deployed.
- RouteTransport.Node.HandleFrame: follows the route table and the duplicate check
  through RECV frames; the list of known nodes, the timed clean-up of seen ids and
  the handlers of other packet types are not modelled, because on a node that is not
  the root no other handler changes the route table.
- RouteTransport.RouteTableTransport: assumes a noise-free link and a receiver that
  has not seen the packet's id; later loss or repetition is not modelled there.
- Duty.SlidingBound: takes as given that every noted transmission was permitted
  first; the caller that would show it is not part of this model.
