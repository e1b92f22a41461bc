# Ariadne: a verified model of the forwarding plane

Ariadne is a software router. This project models the parts of it that decide where a packet
goes and where its buffer goes, and proves that they do what they are for: longest-match routing
(section 5.2.4.3 of RFC 1812) through aggregation, next-hop numbering and two tries; header
verification and the incremental checksum update; ARP learning and pacing; and the movement of
netmap buffers between the manager and its workers, over every interleaving of their steps.

`dafny verify dfyconfig.toml` checks everything.

| file | part of the router |
|---|---|
| `Words.dfy` | 32-bit words as bit strings, the mask and bit operators |
| `Rib.dfy`, `Routes.dfy`, `Reading.dfy` | routes, tables, their meaning by longest match, and how tables with duplicates are read |
| `Aggregation.dfy`, `AggregatePass.dfy`, `AggregateGroups.dfy`, `AggregateReading.dfy`, `AggregateExact.dfy` | `aggregate`: one merge, the whole pass, what it does to the answers, and its outcome in closed form |
| `Numbering.dfy`, `RoutingTable.dfy` | `buildNextHopList`, `update` |
| `Naive.dfy`, `TrieShape.dfy`, `BasicTrie.dfy` | the reference scan and the pointer trie |
| `EndToEnd.dfy` | start-up, build, look up, read the index back |
| `PCShape.dfy`, `PCInsert.dfy`, `PCLookup.dfy`, `PCTrie.dfy` | the path-compressed trie, which the source compiles out with `#if 0` |
| `Checksum.dfy` | IPv4 checksum, verification, `ttl--; checksum++` |
| `Arp.dfy`, `ArpTable.dfy` | the ARP tables |
| `Router.dfy`, `RouterBuffers.dfy`, `RouterOrigin.dfy`, `RouterSafety.dfy`, `ArpPacing.dfy`, `RouterExact.dfy`, `RouterLoops.dfy` | manager and workers as a state machine: buffers, where packets come from, safety, pacing, each step exactly, and the loops |
| `Startup.dfy` | from the routing information to a running router |
| `Witnesses.dfy`, `AggregateWitnesses.dfy`, `WitnessRuns.dfy` | concrete tables and runs on which the code departs from its intent |

## How the code is represented

- A `uint32_t` address is a string of 32 booleans, most significant bit first. The C operators
  (`&`, `|`, `^`, `~`, shifts of one, `PREFIX_MASK`) are spelled out on it. Header bytes, 16-bit
  words and flags are numbers with explicit wrap-around; the host is little-endian.
- `shared_ptr<Interface>` is an interface identity; the current `netmapIndex` of each interface is
  a map handed to the operations that read it.
- The meaning of a table is a set of prefixes with hops; `Best` and `Resolves` define longest match
  on it without reference to any lookup code. A table is well formed when every base has no bits
  past its length, every length equals its level, and no base appears twice in a level. "No route is
  covered" means that every route is the longest match of some address. Aggregation can leave a
  prefix twice in a level; of the routes of the longest matching level the trie then reads the last
  (`Read`, `HopRead`) and the scan the first (`Scan`). On well-formed tables both are the longest match.
- `std::sort` may leave routes with the same base in either order. The aggregation pass is a function
  of the table and of the order each level was left in, and what is proved holds for every order.
- The two tries are linked nodes on the heap. A ghost map from bit strings to nodes ties them to a
  trie as a value. In the path-compressed trie a node is named by the bits its routes share, and
  "below" is "has this name as a prefix".
- Manager and workers run concurrently, so they are a state machine over values: one atomic step
  per ring slot, queue operation or frame, with the outcome of `try_enqueue`, the arrival of packets,
  ring space, clock readings and the comparison with local addresses left open. The state logs what
  was received, heard, asked, written and sent. `RouterExact` says what each step does in terms of the
  bytes of the packets, these logs and the original routes, and `RouterLoops` has the loops of the
  source as methods and shows that each is a sequence of those steps.

## Where the code departs from its intent

- `aggregate` can change the answers of the trie when a route is covered by longer ones: a merged
  route lands beside it. Appended last, it is the one that is read, so the merge itself is harmless
  (`MergeReadsExact`); the sort of its level may put the old route behind it (`SortReadsExact`), and a
  further merge may take it away. `PassExact` says exactly when the answers survive the pass: when the
  turn of each level keeps them. With no covered route it does (`UncoveredKeeps`). With one, the order
  in which the sort leaves equal routes can decide (`OrderDecides`), or the answer is lost in every
  order (`CoveredRouteIsLost`).
- The loop guard `size()-1` in `aggregate` wraps when a level becomes empty. `WrittenLevel` and
  `WrittenAt` are the loops under that guard; they read past the end of a level if and only if some
  level, when its turn comes, is one pair of siblings and nothing else (`WrapsExact`, `Aggregate`).
- `buildNextHopList` starts numbering at zero on every call. `BuildNextHopList` states that the index
  of each route is the position of its gateway exactly when the mapping was empty or knew every gateway
  at its position. Otherwise two gateways share an index; the ARP table, which is read by index, then
  has one place for both: `PlaceExact` says that a place speaks for one gateway alone exactly when no
  other has its index, and `NewGatewayCollides` has packets for one gateway get the MAC of another.
- The mapping keeps the interface of the first route with a gateway. `BuildNextHopList` states that
  indices lead to the interface too exactly when, besides, no gateway is used on two interfaces
  (nor known on another one); `DecisionExact` and `DecisionLimits` carry this through the trie, and
  `SecondInterfaceIgnored` is a table where a packet goes to the right gateway on the wrong interface.
- For a directly connected destination that is in the ARP table the index is only looked at for its
  flag: the packet leaves by the interface the neighbour was first heard on (`LeavesBy`), which need
  not be the one of the route (`NeighbourElsewhere`).
- A visible route whose index is `NH_INVALID` hides shorter routes from the scan but not from the trie
  (`InvalidIndexDisagrees`); `AgreementExact` says when they agree. This happens to a directly
  connected route while its interface has no netmap index.
- After forwarding, a header whose checksum was 0xfeff carries 0xffff where the router's own
  verification demands 0, so the next such router drops it (`NextHopAccepts`, `ExceptionOccurs`).
- For a packet routed through a gateway whose MAC is unknown, the manager asks for the MAC of the
  packet's destination. `RequestTarget` states, over every run, that the request asks for the next hop
  if and only if the packet is directly connected or addressed to its gateway, and that the program
  stops instead if and only if the interface has no address; `GatewayRun` is a run where it asks in vain.
- Buffers of frames that fail verification, are for the host, or meet a refused enqueue are not
  returned. They are counted in `lost`; `LossExactly` lists the cases.

## Model

| member | source | states |
|---|---|---|
| Words.PrefixMaskBits | include/util.hpp:22 | the 64-bit complement in `PREFIX_MASK` gives `len` one bits followed by zero bits, for every length 0 to 32 |
| Words.PrefixMaskCuts | include/util.hpp:22 | masking an address with it is the first `len` bits padded with zeros |
| Words.ExtractBitReads | include/util.hpp:96-100 | `extractBit` is one exactly when the addressed bit is |
| Words.MostSigOne | include/util.hpp:102-111 | the search returns the first one bit from the top, or -1 exactly for zero |
| Rib.MergePreserves | src/routingTable.cpp:40-50 | replacing two siblings by their parent keeps the answer for every address unless the parent prefix has another hop |
| Rib.MergeKeeps | src/routingTable.cpp:40-50 | with no covered route a merge keeps the meaning, uniqueness of prefixes, and that no route is covered |
| Routes.BestRouteUnique | include/routingTable.hpp:121-124 | a well-formed table has at most one longest matching route for an address |
| Reading.ReadIsBest | src/basicTrie.cpp:30 | on every canonical table, the last route of the longest matching level is a longest match, and nothing is read only when nothing matches |
| Reading.ReadingIsMeaning | src/basicTrie.cpp:40-69 | two well-formed tables give the trie the same answers if and only if they have the same longest matches |
| Reading.DuplicatesExact | src/naive.cpp:12-21 | reading the last and reading the first route of the longest level give the same index for every address if and only if they do at every prefix some address is left to |
| Aggregation.MergeAtRib | src/routingTable.cpp:37-50 | erasing two siblings and appending the new route is the merge of their prefixes |
| Aggregation.MergeAtPreserved | src/routingTable.cpp:37-50 | with no covered route the table stays canonical and duplicate-free and keeps its meaning |
| Aggregation.MergeAtTotal | src/routingTable.cpp:40-50 | a merge leaves one route less |
| Aggregation.MergeAtCovers | src/routingTable.cpp:37-50 | whatever the table, a merge keeps it canonical, the same addresses matched, and the same pairs of gateway and interface |
| AggregatePass.WrittenGuardExact | src/routingTable.cpp:35 | the unsigned guard `i < size()-1` holds on empty levels, and means `i+1 < size` if and only if the level is not empty |
| AggregatePass.PassCovers | src/routingTable.cpp:26-55 | for every table and order, the pass keeps routes canonical, the same addresses matched, and neither invents nor drops a pair of gateway and interface |
| AggregatePass.PassPreserved | src/routingTable.cpp:26-55 | with no covered route the pass keeps every answer, uniqueness of prefixes, and that no route is covered |
| AggregatePass.PassTotal | src/routingTable.cpp:40-50 | the pass removes exactly one route per merge |
| AggregatePass.OneOutcome | src/routingTable.cpp:29 | with no covered route the outcome does not depend on how the sort orders equal routes |
| AggregateGroups.MergedMoves | src/routingTable.cpp:35-52 | the inner loop takes the last route of a prefix's half away only if it was the only one, and then the prefix itself is read with its hop; a half without routes stays so and leaves the prefix alone |
| AggregateReading.SortReadsExact | src/routingTable.cpp:29 | sorting a level keeps the trie's answers if and only if, of the routes with the same base some address is left to, one with the same hop comes last again |
| AggregateReading.MergeReadsExact | src/routingTable.cpp:37-50 | a merge in a sorted level, duplicates or not, keeps the trie's answers if and only if it does not uncover, before its first route, one with the same base and another hop that some address is left to |
| AggregateReading.TurnRead | src/routingTable.cpp:27-52 | the turn of a level changes no answer but those of addresses left to the level that still match in it afterwards |
| AggregateReading.PassExact | src/routingTable.cpp:26-55 | for every canonical table and every order of the sort, the pass keeps every answer of the trie if and only if, in the turn of each level, the last route of every shown prefix keeps its hop |
| AggregateReading.UncoveredKeeps | src/routingTable.cpp:26-55 | with no covered route it does |
| AggregateExact.SiblingsExact | src/routingTable.cpp:40-42 | the test on the words holds if and only if the two prefixes differ in their last bit only and go to the same gateway and interface, direct or not |
| AggregateExact.MergedExact | src/routingTable.cpp:35-52 | the loop that erases in place leaves exactly the routes that are in no pair or stand right behind one, and appends exactly the parents of the pairs |
| AggregateExact.AggregateClosed | src/routingTable.cpp:26-55 | the whole pass in closed form: each level, with the parents from the level below, is sorted, keeps what is in no pair, and passes the parents on |
| AggregateExact.WrapsExact | src/routingTable.cpp:35 | the loops as written read past the end of a level if and only if some sorted level is one pair and nothing else |
| RoutingTables.SortLevel | src/routingTable.cpp:29 | a level sorted by base, with the same routes |
| RoutingTables.RoutingTable.MergeLevel | src/routingTable.cpp:35-52 | the inner loop, as long as it stays inside the level, leaves what is in no pair, not examining the route behind a pair, and appends the parents one level up |
| RoutingTables.RoutingTable.Aggregate | src/routingTable.cpp:26-55 | for every canonical table: the closed form, the same addresses matched, same hops, one route less per merge, levels 1 to 30 ascending, 31 and 32 untouched; the trie's answers are kept if and only if each turn keeps them, and without covered routes they are, with no duplicates; the loops as written get there if and only if no sorted level is one pair and nothing else |
| Numbering.NumberingExact | src/routingTable.cpp:96-158 | every gateway index leads to its gateway if and only if the mapping started empty or knew all gateways at their positions |
| Numbering.InterfacesExact | src/routingTable.cpp:145-151 | right indices lead to the interfaces of their routes too if and only if no gateway is used on two interfaces or was known on another one |
| Numbering.NextBounded | src/routingTable.cpp:145-151 | no more indices are handed out than there are new gateways |
| Numbering.RenumberingStable | src/manager.cpp:110 | numbering again over the same gateways keeps gateway indices and refreshes direct indices from the current interface numbers |
| Numbering.IndicesDoNotMatter | src/routingTable.cpp:102-158 | numbering leaves well-formedness and meaning of the table alone |
| RoutingTables.NumberRoute | src/routingTable.cpp:115-151 | a route gets its interface number, the index of its known gateway, or a new one |
| RoutingTables.RoutingTable.BuildNextHopList | src/routingTable.cpp:96-158 | for every mapping an earlier call can leave: only indices change, routes have the index stored with their gateway, new gateways are listed from zero in the order and on the interface in which the levels first name them; indices lead to gateways, and to interfaces, exactly under the two conditions above; from an empty mapping they are dense and the gateways exactly those of the table |
| RoutingTables.RoutingTable.Update | include/routingTable.hpp:137-141 | the aggregated table, numbered from whatever mapping there was, with the trie's answers kept if and only if each turn of the aggregation keeps them |
| Naives.Naive.constructor | src/naive.cpp:3-10 | the shifted mask has `i` one bits at entry `i` |
| Naives.Naive.Route | src/naive.cpp:12-21 | the first route of the longest level that matches, or `NH_INVALID` |
| Naives.ScanIsLongestMatch | src/naive.cpp:12-21 | on well-formed tables the scan returns the longest match |
| Naives.ScanReadsFirst | src/naive.cpp:12-21 | on every canonical table the scan returns the first route of the longest matching level |
| TrieShape.BuiltNodes | src/basicTrie.cpp:15-32 | a node exists for a bit string if and only if it is a prefix of some route, or the root |
| TrieShape.BuiltLeaves | src/basicTrie.cpp:30 | a node's leaf is the index of the last inserted route with exactly that prefix, else `NH_INVALID` |
| TrieShape.BuiltDepth | src/basicTrie.cpp:15-32 | no node lies deeper than 32 |
| TrieShape.WalkMeaning | src/basicTrie.cpp:40-69 | on every table the walk ends at the longest level whose last matching route has a valid index |
| TrieShape.TrieIsLongestMatch | src/basicTrie.cpp:40-69 | with valid indices the trie answers every address with the last route of the longest matching level of any canonical table; on well-formed tables with the longest match |
| TrieShape.AgreementExact | src/basicTrie.cpp:51-53 | on every well-formed table, trie and scan agree on all addresses if and only if no visible route with `NH_INVALID` lies under one with a valid index |
| BasicTries.BasicTrie.BuildTrie | src/basicTrie.cpp:9-34 | the linked nodes hold the shape of the whole table |
| BasicTries.BasicTrie.Insert | src/basicTrie.cpp:18-30 | the walk with the moving pointer adds exactly the nodes of the prefix and sets the leaf at its end |
| BasicTries.BasicTrie.Route | src/basicTrie.cpp:40-69 | lookup returns the last leaf on the path, whatever `extractBit` yields at position 32 |
| EndToEnd.UpdateThenLookup | src/routingTable.cpp:26-158 | for every address the index found after update decodes to the gateway, or direct interface, of the longest match in the original table; to the gateway's interface in that match when no gateway is used on two, else to one it is used on |
| EndToEnd.DecisionExact | src/basicTrie.cpp:40-69 | when aggregation kept the answers, the trie's decision is right for every address, gateway and interface, if and only if the index of each hop that some address is routed to reads as that hop |
| EndToEnd.DecisionLimits | src/basicTrie.cpp:40-69 | with no covered route that is if and only if there are at most 0x8000 gateways, interface numbers are below 0x7fff, and no gateway is used on two interfaces |
| EndToEnd.StartUp | src/manager.cpp:110 | for every well-formed table: updating without interface numbers and numbering again with them is as good as numbering once with them; answers are kept if and only if each turn kept them; the loops as written get there if and only if no level is two siblings at its turn |
| EndToEnd.TrieDecision | src/basicTrie.cpp:9-69 | start-up, trie construction and lookup together make the right decision, judged by the original routes, whenever aggregation kept the answers |
| EndToEnd.CompareLookups | src/naive.cpp:12-21 | trie and scan return the last and the first route of the longest level, and the same index when duplicates agree or there are none |
| EndToEnd.GatewayIndexInRange | src/worker.cpp:117-118 | a result without the direct flag is a legal index into the next-hop vector |
| PCShape.PathDown | src/pcTrie.cpp:54-72 | the insertion search stays on the path of the base |
| PCShape.ParentLowest | src/pcTrie.cpp:136-148 | a node's parent is the lowest node above it |
| PCInsert.SplitStructured | src/pcTrie.cpp:100-162 | a split keeps bases, split positions, sides, parents and leaf pointers consistent; split positions increase downward |
| PCInsert.SplitBelowLength | src/pcTrie.cpp:92-100 | the new split position stays below the length of the inserted route |
| PCInsert.SplitCovering | src/pcTrie.cpp:120-134 | whenever a leaf has a route no longer than a node's split position, that node or one above it points to the leaf |
| PCInsert.SplitKeeps | src/pcTrie.cpp:83-162 | a split keeps the whole invariant, adds exactly the new route, and its position exceeds the parent's |
| PCInsert.PushKeeps | src/pcTrie.cpp:74-81 | adding a longer route to an existing leaf keeps the whole invariant |
| PCInsert.FirstKeeps | src/pcTrie.cpp:45-52 | the first route becomes a valid one-leaf trie |
| PCLookup.CoveredPoint | src/pcTrie.cpp:255-270 | a matching route stored off the path is pointed to at or above the node where it leaves the path |
| PCLookup.FoundInLeaf | src/pcTrie.cpp:246-252 | a match in the reached leaf is at least as long as any other match |
| PCLookup.FoundAbove | src/pcTrie.cpp:255-270 | the first match on the way up is at least as long as any other match |
| PCLookup.FoundSomewhere | src/pcTrie.cpp:255-272 | if anything matches, the way up does not end empty-handed |
| PCTries.PCTrie.Search | src/pcTrie.cpp:54-72 | stops at a leaf or at the first node whose prefix differs from the base |
| PCTries.PCTrie.ConflictAt | src/pcTrie.cpp:83-99 | the split position exists, so the sanity abort is unreachable, and is the first difference |
| PCTries.PCTrie.NewNodes | src/pcTrie.cpp:100-134 | the two new nodes, with the leaf pointer taken from or handed up by the left child |
| PCTries.PCTrie.Attach | src/pcTrie.cpp:136-148 | the new node takes the place of the old one below its parent or at the root |
| PCTries.PCTrie.HasMoreGeneralRoute | src/pcTrie.cpp:30-37 | whether some entry is no longer than the given length |
| PCTries.PCTrie.Insert | src/pcTrie.cpp:42-162 | inserting a route of no smaller length keeps the trie valid and adds exactly that route |
| PCTries.PCTrie.Route | src/pcTrie.cpp:225-273 | returns a stored match such that no stored match is longer, and finds one if there is one |
| PCTries.BuildTrie | src/pcTrie.cpp:39-170 | the built trie is valid and holds exactly the routes of the table |
| PCTries.RouteInTable | src/pcTrie.cpp:225-273 | for every well-formed table and address, the longest match of the table |
| Checksum.OnesSumIsResidue | include/util.hpp:127-133 | folding once per step gives the one's-complement sum of any number of words, independent of order |
| Checksum.OnesSumZero | include/util.hpp:127-133 | the accumulator is zero if and only if every word is |
| Checksum.ByteOrderIndependence | include/util.hpp:128 | summing byte-swapped words gives the byte-swapped sum (section 2(B) of RFC 1071) |
| Checksum.SumWords | include/util.hpp:127-133 | the loop computes the folded sum of the words |
| Checksum.IPv4HdrChecksum | include/util.hpp:121-137 | the complement of the sum with a zero field, in network order; the header is restored |
| Checksum.IPv4HdrVerification | src/worker.cpp:5-41 | accepts exactly the headers that are acceptable by their bytes: frame length at least 20, version 4, header length at least 5 words, total length at least that, TTL above 1, words summing to 0xffff, checksum other than 0xffff; leaves them unchanged |
| Checksum.VerifiedSum | src/worker.cpp:13-28 | a verified header sums to 0xffff and never carries 0xffff as checksum |
| Checksum.VerifiedExact | src/worker.cpp:5-41 | the six checks with the recomputed checksum are equivalent to that condition on the bytes |
| Checksum.IncrementIsEndAround | src/worker.cpp:99 | incrementing the little-endian field adds 0x100 in network order with end-around carry |
| Checksum.ForwardedSum | src/worker.cpp:98-99 | after `ttl--; checksum++` the header still sums to 0xffff; the field equals the recomputed checksum if and only if the old one was not 0xfeff |
| Checksum.NextHopAccepts | src/worker.cpp:5-41 | the next such router accepts the header if and only if the old checksum was not 0xfeff and the TTL was above 2 |
| Checksum.HoppedExact | src/worker.cpp:98-99 | the forwarded header is the one with a TTL one less, a byte-swapped checksum one more, and every other byte the same, and no other is |
| Checksum.Forward | src/worker.cpp:98-99 | the in-place update changes the TTL and the checksum in this way and no other byte |
| Router.DestIpValue | src/worker.cpp:102 | the destination looked up is the number in network order in bytes 16 to 19 |
| Arp.MappingFirst | src/arpTable.cpp:117-123 | after any history the mapping holds the first qualifying frame of a gateway address, a reply or a request for an address of the interface |
| Arp.MappingNone | src/arpTable.cpp:117-123 | and does not know an address nobody taught |
| Arp.DirectFirst | src/arpTable.cpp:126-127 | the directly connected table holds the first qualifying frame of an address that was no gateway |
| Arp.DirectNone | src/arpTable.cpp:126-127 | and does not know an address nobody taught |
| Arp.CurrentLast | src/arpTable.cpp:120 | a place of the current table has the last MAC taught since the latest rebuild by a gateway that has this place |
| Arp.CurrentMapped | src/arpTable.cpp:18-36 | without one it has the MAC mapped at the rebuild for the last gateway with this index, or zero |
| Arp.CurrentMatchesRouting | src/arpTable.cpp:16-36 | after any history the current table has one place per gateway, each on the interface of the last gateway with its index |
| Arp.PlaceExact | src/arpTable.cpp:27-34 | a gateway's place holds what was learned of that gateway alone if and only if no other gateway has its index |
| Arp.FrameExact | src/arpTable.cpp:106-192 | a reply, and a request for an address of its interface, add the sender to the mapping (a gateway) or the neighbours unless it is there, and put a gateway's MAC into its place; any other frame changes nothing |
| Arp.RebuiltExact | src/arpTable.cpp:16-36 | a rebuild gives each place the interface of the last gateway with its index and the MAC mapped for it, or zero |
| Arp.RebuildsOnce | src/arpTable.cpp:16-36 | that determines all tables |
| ArpTables.ArpTable.CreateCurrentTable | src/arpTable.cpp:8-37 | the table is rebuilt from the gateways and what is known of them, a later gateway over an earlier one with its index; it fails if and only if an interface is numbered 0xffff |
| ArpTables.ArpTable.HandleReply | src/arpTable.cpp:84-128 | a reply enters its sender as `FrameExact` says, anything else changes nothing |
| ArpTables.ArpTable.HandleRequest | src/arpTable.cpp:130-193 | a request for an address of the interface enters its sender, others are discarded and change nothing; only non-gateways are answered |
| ArpTables.ArpTable.HandleFrame | src/arpTable.cpp:212-228 | the sender is entered if and only if the frame is a reply or a request for an address of the interface; it is discarded if and only if it is another request |
| ArpTables.ArpTable.Replay | src/arpTable.cpp:8-228 | after any history the object holds the state of that history |
| RouterBuffers.StepConserves | src/manager.cpp:175-334 | every step keeps every buffer, the number in circulation and the number of slots |
| RouterBuffers.WorkConserves | src/worker.cpp:58-171 | a worker's frame goes to the egress queue or is lost |
| RouterBuffers.DispatchConserves | src/manager.cpp:231-334 | a dispatched buffer is reclaimed or exchanged for the one in its slot |
| RouterBuffers.BuffersConserved | src/manager.cpp:175-334 | over every run no buffer appears, is copied or vanishes; free, in flight and lost together stay the initial free count |
| RouterBuffers.OnePlace | src/manager.cpp:175-334 | in every state of every run each buffer is in exactly one of rx slots, tx slots, free list, receive batch, ingress, worker batches, egress, lost |
| RouterBuffers.LossExactly | src/worker.cpp:82-94 | a step leaves a buffer behind if and only if an enqueue is refused or a packet fails verification, is for the host, or has no route |
| RouterBuffers.LeakFreeExactly | src/manager.cpp:218 | a run has lost nothing if and only if none of its steps was such a case |
| RouterOrigin.RunOrigins | src/manager.cpp:187-210 | over every run, every frame holds a packet that arrived, in the buffer it arrived in: unchanged up to the worker; on egress and sent an acceptable IPv4 packet one hop further, an ARP packet as it was that is not a request for others, or a logged request |
| RouterSafety.ProcessedOk | src/worker.cpp:65-170 | what a worker offers to the egress queue is in order, an IPv4 packet acceptable and one hop further; it aborts only for a packet without a route |
| RouterSafety.NextHopInRange | src/worker.cpp:115-142 | the next hop of a routed packet is on an existing interface, that of its longest match; with a MAC address it is vouched for by what was heard |
| RouterSafety.StepSafe | src/manager.cpp:175-334 | every step keeps the safety invariant |
| RouterSafety.RunSafe | src/manager.cpp:175-334 | every state of every run satisfies it |
| RouterSafety.MacsAreTaught | src/worker.cpp:144-150 | every written destination MAC was taught earlier, on the interface the frame leaves by, by the gateway of the packet's longest match in the original table, or, as the first thing heard of it, by the destination on a direct route |
| RouterSafety.LeavesBy | src/worker.cpp:117-150 | a packet behind a gateway leaves by an interface the gateway is used on, the one of its longest match when no gateway is used on two; a directly connected one by the interface its destination was first heard on |
| RouterSafety.RequestTarget | src/manager.cpp:247-287 | over every run, a packet without a MAC is dropped if and only if a request for its destination was logged less than 0.5 s before; else the program stops if and only if the interface of its next hop has no address; else the request leaves on that interface, and asks for the next hop if and only if the packet is directly connected or addressed to its gateway |
| RouterSafety.RequestInterface | src/manager.cpp:262-283 | every request of a run went out on the interface of the next hop of packets to that address |
| RouterSafety.EgressInOrder | src/worker.cpp:86-169 | on the egress queue no frame has the host flag; every non-discarded one has an interface in range and is an ARP frame, a routed packet, or one whose MAC is missing on the interface of its next hop, with a header that sums to 0xffff and is that of a packet that arrived, one hop further; the ring number stays below the number of workers |
| RouterSafety.SentInOrder | src/manager.cpp:320-330 | everything handed to a transmit ring is an ARP packet that arrived and is no request for others, a logged request, or a packet that arrived, one hop further, whose header sums to 0xffff and whose MAC and interface were taught by the next hop of its longest match in the original table |
| ArpPacing.RunPaced | src/manager.cpp:252-287 | over every run, requests for one destination are at least 0.5 s apart |
| ArpPacing.WindowBound | src/manager.cpp:252-287 | a window of length T has at most T/0.5 + 1 of them |
| ArpPacing.DueExact | src/manager.cpp:252-271 | a request is due if and only if the log has none for the address less than 0.5 s before |
| RouterExact.NextHopExact | src/worker.cpp:115-131 | the next hop of a routed packet is, behind a gateway, the interface of its mapping with the MAC it last taught there, and for a neighbour what was first heard of it, or the route's interface without a MAC |
| RouterExact.WorkExact | src/worker.cpp:58-171 | every worker step of every run: an unacceptable or host packet is withheld, one without a route stops the program, any other is one hop further with the MAC of its next hop or marked as missing it, on that hop's interface; ARP frames are flagged, others discarded; nothing else changes |
| RouterExact.DispatchExact | src/manager.cpp:231-334 | every dispatch of every run: an ARP frame is learned from if it qualifies and reclaimed if and only if it is a request for others; a packet without a MAC is dropped, asked for or stops the program by the log of requests; everything else is kept and sent as it is, padded to 60 bytes, in exchange for the slot's buffer; nothing else changes |
| RouterExact.QueueExact | src/manager.cpp:189-218 | the other steps: a filled slot's buffer goes into a frame with its packet and the slot gets the last free one; bulks go to the end of the ingress queue or are lost; workers take from its front |
| RouterExact.RingExact | src/manager.cpp:230-309 | the ring number is the number of frames kept in the round, modulo the number of workers |
| RouterExact.RingExists | src/manager.cpp:306-313 | the k-th kept frame of a round goes to ring k modulo the number of workers, which exists with all its slots |
| RouterLoops.Engine.ReceiveRing | src/manager.cpp:178-222 | the receive loop is a sequence of steps, uses up the filled slots or the free list, and logs what it took in order |
| RouterLoops.Engine.WorkerProcess | src/worker.cpp:49-172 | the worker's loop, with lookups in the trie, is a sequence of steps and empties the ingress queue unless the program aborts |
| RouterLoops.Engine.DrainEgress | src/manager.cpp:229-347 | the egress loop is a sequence of steps and empties the egress queue, unless a packet waits for a MAC on an interface without an address and stops the program |
| RouterLoops.Continue | src/manager.cpp:175-347 | such a sequence continues a run, so what holds of runs holds after it |
| Startup.Boot | src/manager.cpp:14-132 | start-up on any well-formed table whose interfaces are on netmap leaves a router that is ready and, when aggregation kept the answers, at the start of a run |
| AggregateWitnesses.CoveredRouteIsLost | src/routingTable.cpp:26-55 | a table on which, in every order of the sort and with the loops as written reaching their end, the trie answers an address wrongly after the pass |
| AggregateWitnesses.OrderDecides | src/routingTable.cpp:29 | a table on which the pass keeps every answer in one order of the sort and not in another |
| Witnesses.InvalidIndexDisagrees | src/routingTable.cpp:115-122 | a numbered table, with a direct route on an interface without netmap index, on which trie and scan differ |
| Witnesses.SecondInterfaceIgnored | src/routingTable.cpp:126-137 | a numbered table whose trie sends packets to the right gateway on an interface their route does not name |
| Witnesses.NewGatewayCollides | src/arpTable.cpp:19-34 | two calls of the numbering after which two gateways share an index, and the MAC heard from one is used for the other |
| WitnessRuns.GatewayRun | src/manager.cpp:163-349 | a run that asks for the destination behind a gateway, hears the gateway, writes its MAC and sends the packet |
| WitnessRuns.NeighbourElsewhere | src/worker.cpp:121-123 | a run in which a directly connected packet leaves by another interface than its route names |
| Checksum.ExceptionOccurs | src/worker.cpp:98-99 | a header accepted by this router and refused by the next |

## Left out

- Netlink and libmnl access (src/netlink.cpp, src/linuxTable.cpp), file tables, `main`, logging, statistics, start and stop of threads: input, output and plumbing.
- netmap set-up, `poll`, and the kernel's side of the rings: a receive step may use any slot, a transmit step any slot of the chosen ring; head and cur indices are not modelled.
- The inside of `moodycamel::ConcurrentQueue`: the ingress queue is first-in first-out and may refuse a bulk, the egress queue gives up its frames in any order and may refuse one.
- Data races on the shared ARP tables: steps are atomic.
- Maximal aggregation: the loop skips an element after a merge, so it does not hold and is not stated.
- Aggregate: what the program does after reading past the end of a level is undefined and not modelled.
- MergeLevel: is the inner loop under the guard `i+1 < size`; the guard as written is `WrittenLevel`, and `WrapsExact` relates the two.
- A netmap interface that the system does not know: start-up stops the program there (src/manager.cpp:95-97), so runs take all interfaces to be known.
- More than 0xffff new gateways in one call of the numbering: its assertion stops the program.
- Contents of ARP replies and their forwarding, source MAC addresses, and the byte order in which a destination is compared with local addresses; the comparison may go either way in a worker step.
- `PCTrie::getSize` and the tree drawings: printing.
- `frame::hash`: unused.
- Manager and workers keep their state as one value per step rather than in separate fields; `RouterLoops` updates it in place.
