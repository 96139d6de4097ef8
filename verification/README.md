# Network Service Mesh: a verified model of its control plane

A Dafny model of the parts of Network Service Mesh where correctness is hard to see, with proofs for
every input, every run and every answer of the outside world.

- **The prefix pool** (`Powers`, `Sets`, `BigInt`, `IPNets`, `Spaces`, `Extraction`, `BestFit`, `Coalescing`,
  `AddressCounts`, `IPBytes`, `PrefixPools`). A buddy allocator over IP prefixes: best-fit extraction by
  repeated halving, release by joining siblings until nothing joins, and a pool that records what each
  connection holds. A prefix is an address and a mask (section 3.1 of RFC 4632, section 2.3 of
  RFC 4291); its meaning is the set of addresses it covers, and all main results are about those sets.
- **Connections** (`Connections`). The client connection table under Request, Close and Heal.
- **Endpoint search** (`EndpointSearch`) and **selection** (`Selector`).
- **Endpoint indexes** (`EndpointIndex`): the registry cache and the manager's model.
- **Monitor** (`Monitor`): the server's loop and the copies its recipients keep.
- **VNIs** (`Vni`): the identifiers two hosts allocate for the tunnels between them (the VNI field of
  section 5 of RFC 7348).
- **SR-IOV grouping** (`Sriov`).

Objects that the source updates in place are classes whose methods are proved against functions on
values; the lemmas about runs are about those functions. Go's map iteration is an arbitrary choice.
`hide` statements only keep definitions away from the solver where a proof does not need them.

## What turned out to be conditional

Some properties one would expect do not hold of the code as it is. Each is proved in the exact form in
which it holds, with a concrete input on which it fails:

- Free and live prefixes make up the base space exactly as long as no live connection id is passed to
  `Extract` again: the old record is overwritten and its addresses are lost
  (`PrefixPools.ConservedIffNoReuse`, `PrefixPools.NoLastingFragmentation`; whether a call does this can be
  told from the pool and the requests, `PrefixPools.ReusesIff`; example: `PrefixPools.ReuseLosesAddresses`).
- Best fit finds every placement exactly when no two free prefixes are siblings
  (`BestFit.OptimalIffReduced`; example: `BestFit.TwoHalvesNoRoom`). The pool's constructor does not check
  this for the base prefixes.
- A `Request` that changes the network service of a connection and then fails before the dataplane is
  programmed leaves that connection Closed in the table, where healing ignores it
  (`Connections.RunReadyIff`, `Connections.ClosedStays`; example: `Connections.UpgradeCanFail`). A plan of
  operations is safe from this, whatever the outside answers, exactly when no update in it names another
  service for a connection that the table may then hold (`Connections.PlanSafeIff`).
- When the selector finds no endpoint among non-empty candidates, the search goes on with a nil endpoint.
  No registry leads there exactly when the selector chooses from every non-empty list, which for the match
  selector means no matches at all or one, open to the client, with a route without labels
  (`EndpointSearch.NilAskedIff`, `EndpointSearch.MatchingAsksNilIff`; example:
  `EndpointSearch.NilEndpointAsked`).
- `isSubset` is a subset test exactly for selectors without empty values
  (`Selector.SubsetIffNoEmptyValue`; example: `Selector.EmptyValuePasses`).
- The registry cache stays exact exactly as long as a known endpoint keeps its service, the manager's model
  exactly as long as added names are new (`EndpointIndex.CacheRunExactIff`,
  `EndpointIndex.ModelRunExactIff`; examples: `EndpointIndex.ChangedServiceBreaksCache`,
  `EndpointIndex.SecondAddBreaksModel`). Deleting an endpoint whose service changed removes another one or
  panics (`EndpointIndex.DeleteAfterChange`).
- A configuration change regroups exactly when an added map keeps all entries in their services and an
  update changes no entry under its key (`Sriov.StepRegroupsIff`, `Sriov.HistoryRegroupsIff`; example:
  `Sriov.ChangedEntryStays`).
- Network identifiers for the tunnel between two addresses do not clash exactly when each host spells the
  other's address in one way and allocates at most 2^63 of them, after which they start again
  (`Vni.NoClashIff`; example: `Vni.SecondSpellingClashes`).

## Model

| member | source | states |
|---|---|---|
| PrefixPools.RefusedOnlyIfImpossible | controlplane/pkg/prefix_pool/prefixpool.go:49-96 | on a reduced pool `Extract` is refused exactly when a request is invalid or its block and all required extra prefixes have no disjoint placement in the free addresses |
| PrefixPools.RunRefusesOnlyIfImpossible | controlplane/pkg/prefix_pool/prefixpool.go:49-119 | the same in every state of a run with a reduced base or after a release |
| PrefixPools.NoLastingFragmentation | controlplane/pkg/prefix_pool/prefixpool.go:49-119 | a run that ends with no live connection returns exactly the base prefixes iff it released nothing, or those were reduced and no live id was extracted for again |
| PrefixPools.ConservedIffNoReuse | controlplane/pkg/prefix_pool/prefixpool.go:49-119 | in every reachable state free and live addresses make up the base space iff no live id was extracted for again |
| PrefixPools.ReusesIff | controlplane/pkg/prefix_pool/prefixpool.go:49-96 | a call overwrites a live record iff the id is live, the requests are valid and the counting condition holds of the free prefixes |
| PrefixPools.ReuseLosesAddresses | controlplane/pkg/prefix_pool/prefixpool.go:91-94 | a concrete run of two calls for one id that loses four of eight addresses |
| PrefixPools.RunConserves | controlplane/pkg/prefix_pool/prefixpool.go:49-119 | in every reachable state free prefixes and live blocks are pairwise disjoint and with the lost addresses cover exactly the base space |
| PrefixPools.StepConserves | controlplane/pkg/prefix_pool/prefixpool.go:49-119 | each operation keeps that invariant, and only the reuse of a live id loses addresses |
| PrefixPools.RunReduced | controlplane/pkg/prefix_pool/prefixpool.go:49-119 | free prefixes stay reduced if the base was, and are reduced after the first release in any case |
| PrefixPools.GrantIsGreedy | controlplane/pkg/prefix_pool/prefixpool.go:57-87 | `Extract` succeeds iff the connection's block and then all required prefixes can be taken greedily |
| PrefixPools.GrantCarves | controlplane/pkg/prefix_pool/prefixpool.go:57-95 | what a connection gets is cut exactly from the free prefixes, with a block of at least four addresses |
| PrefixPools.BlockOfFour | controlplane/pkg/prefix_pool/prefixpool.go:53-66 | the block of a connection has four addresses where the family is that of the pool; an IPv4 pool has none for IPv6 |
| PrefixPools.FourFreeSuffice | controlplane/pkg/prefix_pool/prefixpool.go:49-66 | on a reduced pool a connection without extra prefixes is refused iff no block of four addresses is wholly free |
| PrefixPools.ExtrasGranted | controlplane/pkg/prefix_pool/prefixpool.go:82-95 | of every length a connection gets as many extra prefixes as its requests require and at most as many as they ask for, fewer only if no room is left; none without requests |
| PrefixPools.EndpointsAreDistinct | controlplane/pkg/prefix_pool/prefixpool.go:72-80 | network+1 and network+2 lie in the connection's own block and differ from those of every other live connection |
| PrefixPools.AddressesAreDistinct | controlplane/pkg/prefix_pool/prefixpool.go:67-95 | so the byte addresses handed out differ, of one connection and of any two |
| PrefixPools.FirstAddresses | controlplane/pkg/prefix_pool/prefixpool.go:67-80 | the two increments never fail and give network+1 and network+2 in the sixteen-byte form that parsing yields for either family |
| PrefixPools.PrefixPool.constructor | controlplane/pkg/prefix_pool/prefixpool.go:40-47 | the initial state of a run |
| PrefixPools.PrefixPool.Extract | controlplane/pkg/prefix_pool/prefixpool.go:49-96 | one step of a run; a block of four addresses with network+1 and network+2 and its mask; all or nothing: on an error the pool is unchanged |
| PrefixPools.PrefixPool.Release | controlplane/pkg/prefix_pool/prefixpool.go:97-119 | one step of a run; afterwards the free prefixes are the maximal networks of the freed space |
| PrefixPools.PrefixPool.GetConnectionInformation | controlplane/pkg/prefix_pool/prefixpool.go:121-129 | the record of a live connection, an error otherwise |
| BestFit.BestFitIsOptimal | controlplane/pkg/prefix_pool/prefixpool.go:148-158 | on a reduced pool the required phase succeeds iff a placement of all required lengths exists, iff for every length the demand up to it fits the free prefixes up to it |
| BestFit.OptimalIffReduced | controlplane/pkg/prefix_pool/prefixpool.go:177-238 | best fit finds every placement there is iff the free prefixes are reduced |
| BestFit.GreedyIffFits | controlplane/pkg/prefix_pool/prefixpool.go:148-158 | on any pool the required phase succeeds iff the counting condition holds |
| BestFit.GreedyStep | controlplane/pkg/prefix_pool/prefixpool.go:183-238 | one best-fit extraction neither creates nor destroys the counting condition |
| BestFit.CutUpTo | controlplane/pkg/prefix_pool/prefixpool.go:210-235 | how splitting a root changes the free count for every length |
| BestFit.OrderDoesNotMatter | controlplane/pkg/prefix_pool/prefixpool.go:148-158 | success does not depend on the order of the required lengths |
| BestFit.SiblingsDefeatBestFit | controlplane/pkg/prefix_pool/prefixpool.go:177-238 | two free siblings always admit lengths with a placement that best fit misses |
| BestFit.TwoHalvesNoRoom | controlplane/pkg/prefix_pool/prefixpool.go:177-208 | a concrete pool with both halves of a /24 free and no room found for a /24 |
| Spaces.ReducedIsMaximal | controlplane/pkg/prefix_pool/prefixpool.go:286-338 | the members of a disjoint sibling-free set are exactly the maximal networks in the addresses it covers |
| Spaces.ReducedIsUnique | controlplane/pkg/prefix_pool/prefixpool.go:286-338 | two disjoint sibling-free sets over the same addresses are equal |
| Spaces.CoveredByOne | controlplane/pkg/prefix_pool/prefixpool.go:286-338 | in a reduced pool every wholly covered network lies inside one member |
| Spaces.SizeSumIsCount | controlplane/pkg/prefix_pool/prefixpool.go:360-372 | the sizes of disjoint networks add up to the number of addresses they cover |
| Coalescing.ReleasePrefixes | controlplane/pkg/prefix_pool/prefixpool.go:266-339 | nothing released: the list as it is; else no overlap, no siblings, the same addresses, and as members exactly the maximal networks, in whatever order maps are iterated |
| Coalescing.MergePass | controlplane/pkg/prefix_pool/prefixpool.go:286-337 | a pass keeps the addresses, has one network less per join, and joins nothing only if nothing is left to join |
| Coalescing.MergeLevel | controlplane/pkg/prefix_pool/prefixpool.go:290-325 | one level: what the loop computes on any list; of disjoint networks, pairs with one base address become their parent and the rest has no siblings |
| Coalescing.OverlapJoins | controlplane/pkg/prefix_pool/prefixpool.go:290-325 | on overlapping networks the loop joins halves into a copy of their parent and the two copies into a network twice as large |
| Coalescing.Leftovers | controlplane/pkg/prefix_pool/prefixpool.go:319-324 | the unmerged networks of a level, each once and without siblings |
| Coalescing.JoinKeepsSpace | controlplane/pkg/prefix_pool/prefixpool.go:307-316 | joining two siblings keeps disjointness and the addresses with one network less |
| Coalescing.RemoveDuplicates | controlplane/pkg/prefix_pool/prefixpool.go:241-252 | the first occurrence of each network, in order |
| Coalescing.DedupKeepsElems | controlplane/pkg/prefix_pool/prefixpool.go:241-252 | no repetition, the same networks |
| Coalescing.Group | controlplane/pkg/prefix_pool/prefixpool.go:273-284 | every network once, under its own length |
| Coalescing.Flatten | controlplane/pkg/prefix_pool/prefixpool.go:329-335 | every network of every level once |
| Extraction.ExtractManyGrants | controlplane/pkg/prefix_pool/prefixpool.go:131-175 | failure exactly on an invalid request, no request, or missing room for required networks; on success every request has its required number and as many more as asked for or as fit, and the pool is cut exactly |
| Extraction.GrantedCounts | controlplane/pkg/prefix_pool/prefixpool.go:131-175 | of every length at least the required and at most the requested number is granted, fewer only if no room is left for it |
| Extraction.ExtractPrefixes | controlplane/pkg/prefix_pool/prefixpool.go:131-175 | what is granted; on an error the caller keeps the prefixes passed in |
| Extraction.RequiredPhase | controlplane/pkg/prefix_pool/prefixpool.go:148-158 | all required networks or failure |
| Extraction.OptionalPhase | controlplane/pkg/prefix_pool/prefixpool.go:159-170 | more networks up to the requested numbers |
| Extraction.ExtractUpTo | controlplane/pkg/prefix_pool/prefixpool.go:161-169 | one request's optional networks, stopping at the first refusal |
| Extraction.NoFalseRefusal | controlplane/pkg/prefix_pool/prefixpool.go:177-238 | on a reduced pool a length is served iff some aligned block of it is wholly free |
| Extraction.ExtractOneCarves | controlplane/pkg/prefix_pool/prefixpool.go:177-238 | success iff the length exists in the family and some free prefix is no longer; the result and the remainder cut the pool exactly and stay reduced |
| Extraction.ExtractPrefix | controlplane/pkg/prefix_pool/prefixpool.go:177-239 | an exact match, else the longest shorter prefix split down its left side, its right halves put in its place |
| Extraction.ExtractOneExactly | controlplane/pkg/prefix_pool/prefixpool.go:177-239 | the start of the best fitting prefix, and the list with its right halves, deepest first, in its place |
| Extraction.ScanTakesFirst | controlplane/pkg/prefix_pool/prefixpool.go:178-203 | of equal fits the first, except that of prefixes of length zero it is the last |
| Extraction.RightsAre | controlplane/pkg/prefix_pool/prefixpool.go:210-238 | the right halves in closed form |
| Extraction.LeftmostIs | controlplane/pkg/prefix_pool/prefixpool.go:210-238 | the extracted block starts where the root does |
| Extraction.ValidIff | controlplane/pkg/apis/connectioncontext/helpers.go:49-86 | a request of a known family is valid iff its numbers are in order and networks of its length exist in the family |
| Extraction.ValidOtherwise | controlplane/pkg/apis/connectioncontext/helpers.go:49-86 | never without a request or a family; an unknown family has no limit of its own |
| Extraction.ScanIsBestFit | controlplane/pkg/prefix_pool/prefixpool.go:178-203 | the search finds a fitting prefix iff there is one, and one of the greatest length |
| Extraction.SplitRoot | controlplane/pkg/prefix_pool/prefixpool.go:213-234 | the split loop yields the leftmost block and the right halves, deepest first |
| Extraction.SplitIsPartition | controlplane/pkg/prefix_pool/prefixpool.go:210-238 | the extracted block and the right halves are disjoint and cover exactly the root |
| Extraction.Reverse | controlplane/pkg/prefix_pool/prefixpool.go:254-264 | the list in reverse |
| IPNets.SubnetIsHalf | controlplane/pkg/prefix_pool/prefixpool.go:341-380 | OR with the shifted index bit yields the two halves |
| IPNets.Halves | controlplane/pkg/prefix_pool/prefixpool.go:341-358 | the halves of a network are networks, disjoint, and cover it |
| IPNets.ParentHasHalf | controlplane/pkg/prefix_pool/prefixpool.go:298-315 | clearing the index bit leads to the network of which this is a half |
| IPNets.SiblingsFormParent | controlplane/pkg/prefix_pool/prefixpool.go:307-315 | two networks with one base address cover exactly their parent |
| BigInt.OrWithBit | controlplane/pkg/prefix_pool/prefixpool.go:374-380 | OR with one bit adds its weight unless the bit is set |
| BigInt.ClearBitTakesWeight | controlplane/pkg/prefix_pool/prefixpool.go:382-386 | clearing a bit takes its weight away if it was set |
| AddressCounts.AddressCount | controlplane/pkg/prefix_pool/prefixpool.go:360-372 | the wrapping sum, which is the number of addresses modulo 2^64 |
| AddressCounts.CountIsSizeModWord | controlplane/pkg/prefix_pool/prefixpool.go:368-372 | the shift in a 64-bit word is the size modulo 2^64, also for large IPv6 prefixes |
| AddressCounts.CarvingConservesCount | controlplane/pkg/prefix_pool/prefixpool.go:131-175 | extraction conserves what `AddressCount` returns, in 64-bit arithmetic |
| AddressCounts.SameSpaceSameCount | controlplane/pkg/prefix_pool/prefixpool.go:266-339 | coalescing conserves what `AddressCount` returns |
| IPBytes.ToIP | controlplane/pkg/prefix_pool/prefixpool.go:388-397 | bytes of the full width whose value is the integer |
| IPBytes.ToFromIP | controlplane/pkg/prefix_pool/prefixpool.go:388-406 | `toIP` undoes `fromIP` |
| IPBytes.SetNetIndexInIP | controlplane/pkg/prefix_pool/prefixpool.go:374-380 | OR with the shifted index, for any address; from the bytes of a network those of its halves |
| IPBytes.ClearNetIndexInIP | controlplane/pkg/prefix_pool/prefixpool.go:382-386 | the bit cleared, for any address; from the bytes of a network those of its parent |
| IPBytes.IncAddsOne | controlplane/pkg/prefix_pool/prefixpool.go:434-439 | ripple carry adds one modulo the width |
| IPBytes.Ripple | controlplane/pkg/prefix_pool/prefixpool.go:432-439 | the carry loop on a copy of the address |
| IPBytes.IncrementIP | controlplane/pkg/prefix_pool/prefixpool.go:431-444 | the next address, refused iff the network does not contain it, for four-byte and sixteen-byte addresses of both families: four bytes wrap around, the sixteen-byte form of the last IPv4 address is refused |
| IPBytes.ParsedExample | controlplane/pkg/prefix_pool/prefixpool.go:67-70 | 10.10.1.1 in sixteen bytes |
| IPBytes.IncMapped | controlplane/pkg/prefix_pool/prefixpool.go:432-439 | the sixteen-byte form of an IPv4 address goes up by one; after the last one it is no IPv4 address |
| IPBytes.ContainsSixteen | controlplane/pkg/prefix_pool/prefixpool.go:440-442 | an IPv4 network contains exactly the sixteen-byte forms of the addresses of its block |
| IPBytes.ContainsSix | controlplane/pkg/prefix_pool/prefixpool.go:440-442 | an IPv6 network contains the addresses of its block, without those of IPv4 form unless it has that form |
| Connections.Manager.Heal | controlplane/pkg/nsm/nsm_heal.go:11-110 | for every answer and any connection object, in the table or not: kept exactly when the request it sends again is granted all it asks for, on the remote side only for a lost dataplane, never for a lost source; otherwise gone, and no other entry is touched |
| Connections.RecoversIff | controlplane/pkg/nsm/nsm_heal.go:31-108 | when healing keeps a connection, in terms of the answers |
| Connections.HealKeepsIff | controlplane/pkg/nsm/nsm_heal.go:31-108 | if all goes well a connection is kept unless its source is down, or its destination on the remote side |
| Connections.Manager.HealBody | controlplane/pkg/nsm/nsm_heal.go:31-108 | the same between the first and the deferred state change |
| Connections.Manager.RequestOrClose | controlplane/pkg/nsm/nsm_heal.go:112-123 | the entry is Ready if the request went through and gone otherwise |
| Connections.Manager.UpdateRequest | controlplane/pkg/nsm/nsm.go:68-225 | `request` with an existing connection: success exactly if each answer it needs is yes, with a second attempt at programming; the table, the connection's state and the ids spent for every answer |
| Connections.UpdateFates | controlplane/pkg/nsm/nsm.go:68-225 | a Ready entry is gone if only the programming failed, twice; Closed if a changed service failed before that; Ready otherwise |
| Connections.Manager.NewRequest | controlplane/pkg/nsm/nsm.go:68-225 | `request` without one: Ready under the next id iff everything succeeded, no entry under it after a failure to program; until the counter wraps that id is new |
| Connections.Manager.Request | controlplane/pkg/nsm/nsm.go:51-54 | an update if the table knows the id, else a new connection |
| Connections.Manager.Close | controlplane/pkg/nsm/nsm.go:301-303 | any connection object, in the table or not, is Closed and its id gone from the table; nothing if already Closing |
| Connections.Manager.CloseConnection | controlplane/pkg/nsm/nsm.go:305-346 | Closed afterwards and out of the table if the dataplane is closed too; nothing if already Closing |
| Connections.Manager.DeleteClientConnection | controlplane/pkg/model/model.go:177-193 | the id is gone, no other |
| Connections.Manager.ConnectionId | controlplane/pkg/model/model.go:355-360 | the next number in 64-bit arithmetic, in hexadecimal |
| Connections.HexRoundTrip | controlplane/pkg/model/model.go:355-360 | an id determines its number, so ids do not repeat |
| Connections.HexExample | controlplane/pkg/model/model.go:355-360 | lower-case digits, most significant first |
| Connections.FreshId | controlplane/pkg/model/model.go:355-360 | until the counter wraps the next id is not in the table |
| Connections.RunReadyIff | controlplane/pkg/nsm/nsm.go:68-346 | all entries are Ready between the operations of a run iff no upgrade fails in it |
| Connections.PlanSafeIff | controlplane/pkg/nsm/nsm.go:68-346 | a plan of operations keeps all entries Ready for every answer of the outside iff no update in it names another service for a connection the table may then hold |
| Connections.UpdateSafeIff | controlplane/pkg/nsm/nsm.go:103-157 | an update keeps all entries Ready for every answer of the outside iff it keeps the service |
| Connections.ReadyUnlessUpgradeFails | controlplane/pkg/nsm/nsm.go:103-157 | an operation leaves a non-Ready entry iff it is a failed change of network service |
| Connections.NeverHalfWay | controlplane/pkg/nsm/nsm.go:68-346 | after every run an entry is Ready or Closed |
| Connections.ClosedStays | controlplane/pkg/nsm/nsm_heal.go:16-19 | no run of healings, and of anything for other connections, changes a Closed entry; closing it removes it |
| Connections.UpgradeCanFail | controlplane/pkg/nsm/nsm.go:105-157 | a concrete failed upgrade |
| EndpointSearch.FindConnectNSE | controlplane/pkg/nsm/nsm.go:233-280 | the loop ends; the old endpoint is asked first, and alone if it accepts; everyone asked is whom the old connection, the registry and the selector called for in that round; no name is asked twice; only the last one asked may accept, and that is success |
| EndpointSearch.NamedSearch | controlplane/pkg/nsm/nsm.go:514-525 | an endpoint that the request names and the model knows is asked, after the old one if that is another |
| EndpointSearch.NamedMissing | controlplane/pkg/nsm/nsm.go:514-525 | if the model does not know it, only the old endpoint is asked |
| EndpointSearch.AskedAreEligible | controlplane/pkg/nsm/nsm.go:541-557 | with the match selector everyone asked but the old endpoint is eligible for the client among those not yet asked |
| EndpointSearch.NotFoundAfterAllRefused | controlplane/pkg/nsm/nsm.go:233-280 | with a stable registry a failed search has asked every endpoint in some round and been refused in it; of endpoints that share a name, one |
| EndpointSearch.TraceAsksOnce | controlplane/pkg/nsm/nsm.go:243-276 | no name is asked twice |
| EndpointSearch.NilAskedIff | controlplane/pkg/nsm/nsm.go:545-556 | no registry, old endpoint or acceptor leads to a nil endpoint iff the selector chooses from every non-empty list |
| EndpointSearch.MatchingAsksNilIff | controlplane/pkg/nsm/nsm.go:545-556 | for the match selector: iff the service has no matches, or one open to the client with a route without labels |
| EndpointSearch.NilEndpointAsked | controlplane/pkg/nsm/nsm.go:545-556 | a concrete registry and service for which the first round asks a nil endpoint |
| EndpointSearch.GetEndpoint | controlplane/pkg/nsm/nsm.go:514-557 | by name: that endpoint unless ignored; by service: none left iff all are ignored, else the choice of the selector, or nil |
| EndpointSearch.CandidateIsNew | controlplane/pkg/nsm/nsm.go:514-568 | a candidate is not among the ignored ones |
| EndpointSearch.NoneLeftMeansAllIgnored | controlplane/pkg/nsm/nsm.go:541-546 | with a stable registry no candidate is left only when all are ignored |
| EndpointSearch.FilterEndpoints | controlplane/pkg/nsm/nsm.go:559-568 | the filtered list |
| EndpointSearch.FilterMembers | controlplane/pkg/nsm/nsm.go:559-568 | exactly the endpoints that are not ignored |
| EndpointSearch.FilterConcat | controlplane/pkg/nsm/nsm.go:559-568 | the endpoints keep their order |
| Selector.IsSubset | controlplane/pkg/selector/match_selector.go:38-49 | the check as Go's missing keys make it, with its guard on the sizes |
| Selector.SubsetIffNoEmptyValue | controlplane/pkg/selector/match_selector.go:38-49 | it is a subset test for all label maps iff the selector has no empty value |
| Selector.EmptyValuePasses | controlplane/pkg/selector/match_selector.go:38-49 | labels without the key pass a concrete selector with an empty value |
| Selector.MatchSelector.MatchEndpoint | controlplane/pkg/selector/match_selector.go:51-77 | none iff no match applies; else an endpoint that a route of the first applicable match selects |
| Selector.MatchSelector.CollectCandidates | controlplane/pkg/selector/match_selector.go:60-69 | the candidates of a match |
| Selector.CandidateMembers | controlplane/pkg/selector/match_selector.go:60-69 | exactly the endpoints that some route selects |
| Selector.CandidateCount | controlplane/pkg/selector/match_selector.go:60-69 | an endpoint is a candidate once for every route that selects it |
| Selector.SelectedConcat | controlplane/pkg/selector/match_selector.go:64-68 | candidates keep the order of the endpoints |
| Selector.CandidatesConcat | controlplane/pkg/selector/match_selector.go:60-69 | and the routes in turn |
| Selector.ChosenFromFirst | controlplane/pkg/selector/match_selector.go:51-77 | the choice is among all candidates of the first match that applies |
| Selector.MatchSelector.SelectEndpoint | controlplane/pkg/selector/match_selector.go:79-86 | round robin over all endpoints without matches, else the matching choice |
| Selector.ChoiceIff | controlplane/pkg/selector/match_selector.go:51-86 | none of a non-empty list is chosen iff there are matches and none applies |
| Selector.AlwaysChoosesIff | controlplane/pkg/selector/match_selector.go:51-86 | every non-empty list is served iff there are no matches, or one open to the client has a route without labels |
| Selector.SelectorIsFair | controlplane/pkg/selector/match_selector.go:51-86 | only eligible endpoints are answered, and over as many picks as there are entries to go round every one of them is |
| Selector.SoundIsRight | controlplane/pkg/selector/match_selector.go:51-77 | without empty values the choice is the one real subset tests would make |
| Selector.RoundRobin.SelectEndpoint | controlplane/pkg/selector/round_robin_selector.go:22-39 | the endpoint at the counter modulo the length, none iff there is none, and the counter moves on |
| Selector.EachPositionOnce | controlplane/pkg/selector/round_robin_selector.go:22-39 | n picks for a service over a list of n take each position exactly once, whatever happens for other services in between |
| Selector.EachEndpointReturned | controlplane/pkg/selector/round_robin_selector.go:22-39 | over n picks for a service from a list of n every endpoint is returned, by one pick only unless the list has it twice |
| Selector.PickOrder | controlplane/pkg/selector/round_robin_selector.go:22-39 | from the start the picks for a service go through the list in order |
| EndpointIndex.CacheRunExactIff | k8s/pkg/registryserver/resource_cache/nse_cache.go:47-84 | a run keeps the cache exact all along, with no panic, iff no registered endpoint changes its service |
| EndpointIndex.CacheRunAgrees | k8s/pkg/registryserver/resource_cache/nse_cache.go:47-84 | after every run in which services do not change, the lists are exactly the registered endpoints of each service, once each and in order |
| EndpointIndex.CacheAddedAgreesIff | k8s/pkg/registryserver/resource_cache/nse_cache.go:47-61 | adding keeps the cache exact iff a known endpoint keeps its service |
| EndpointIndex.DeleteAgrees | k8s/pkg/registryserver/resource_cache/nse_cache.go:63-84 | deleting from an exact index does not panic and keeps both indexes exact |
| EndpointIndex.RegisteredIs | k8s/pkg/registryserver/resource_cache/nse_cache.go:47-61 | the reference: a new endpoint comes last, a known one is replaced where it is |
| EndpointIndex.UnregisteredIs | k8s/pkg/registryserver/resource_cache/nse_cache.go:63-84 | the reference: one endpoint goes and nothing else moves |
| EndpointIndex.DeleteAfterChange | k8s/pkg/registryserver/resource_cache/nse_cache.go:63-84 | after a change of service a delete panics iff the new service has no endpoint; else its first endpoint is no longer listed though registered, and the stale entry stays |
| EndpointIndex.ChangedServiceBreaksCache | k8s/pkg/registryserver/resource_cache/nse_cache.go:47-61 | a concrete run after which no list of endpoints explains the cache |
| EndpointIndex.NseCache.ResourceAdded | k8s/pkg/registryserver/resource_cache/nse_cache.go:47-61 | appended if new, overwritten in its service's list if known |
| EndpointIndex.NseCache.ResourceDeleted | k8s/pkg/registryserver/resource_cache/nse_cache.go:63-84 | without a panic: out of the map, and its entry or else the first one out of the list; an exact index stays exact |
| EndpointIndex.NseCache.Get | k8s/pkg/registryserver/resource_cache/nse_cache.go:30-32 | the list of a service; in an exact cache its registered endpoints in order |
| EndpointIndex.ModelRunExactIff | controlplane/pkg/model/model.go:224-288 | a run keeps the model exact all along iff every name it adds is new |
| EndpointIndex.ModelRunAgrees | controlplane/pkg/model/model.go:224-288 | after every run that adds only new names, the model's lists are exact |
| EndpointIndex.ModelAddedAgreesIff | controlplane/pkg/model/model.go:240-258 | adding keeps the model exact iff the name is new |
| EndpointIndex.SecondAddBreaksModel | controlplane/pkg/model/model.go:240-258 | a concrete run after which no list of endpoints explains the model |
| EndpointIndex.EndpointModel.AddEndpoint | controlplane/pkg/model/model.go:240-258 | in the map and at the end of its service's list |
| EndpointIndex.EndpointModel.DeleteEndpoint | controlplane/pkg/model/model.go:260-288 | removed from the map and its list, an error if unknown; an exact index stays exact |
| EndpointIndex.EndpointModel.GetNetworkServiceEndpoints | controlplane/pkg/model/model.go:224-232 | the list of a service; in an exact model its endpoints in order |
| Monitor.ReplicasAgree | controlplane/pkg/monitor/monitor_server.go:100-143 | in every run of the loop, a current recipient that has worked through its events has exactly the server's map |
| Monitor.MapFromHistory | controlplane/pkg/monitor/monitor_server.go:100-131 | the server's map holds exactly the entities whose last change was an update, with that value |
| Monitor.ReplicaFromHistory | controlplane/pkg/monitor/monitor_server.go:100-143 | and so does the copy of every current recipient |
| Monitor.ListChanges | controlplane/pkg/monitor/monitor_server.go:103-117 | one more on the list after joining, one less after leaving |
| Monitor.ServeKeepsAgreement | controlplane/pkg/monitor/monitor_server.go:103-130 | each iteration keeps that agreement, also for recipients that join more than once |
| Monitor.SendReaches | controlplane/pkg/monitor/monitor_server.go:133-143 | an event reaches exactly the recipients on the list |
| Monitor.SentOnceEach | controlplane/pkg/monitor/monitor_server.go:133-143 | each recipient gets the event as often as it is on the list |
| Monitor.MonitorServer.Send | controlplane/pkg/monitor/monitor_server.go:133-143 | one event to each recipient in turn |
| Monitor.MonitorServer.NewRecipient | controlplane/pkg/monitor/monitor_server.go:104-110 | the whole state, then on the list |
| Monitor.MonitorServer.ClosedRecipient | controlplane/pkg/monitor/monitor_server.go:111-117 | the first occurrence leaves the list |
| Monitor.MonitorServer.NewEvent | controlplane/pkg/monitor/monitor_server.go:118-128 | updated entities are in the map, deleted ones are not, and every recipient is told |
| Monitor.Replica.HandleEvent | controlplane/pkg/monitor_crossconnect_server/monitor_netnsinode_server.go:109-125 | updated entities are in the copy, deleted ones are not, and an initial transfer replaces it |
| Monitor.CopyEvent | controlplane/pkg/monitor_crossconnect_server/monitor_netnsinode_server.go:42-55 | the copy holds exactly the entities that are not nil; of an event the server sent it is the event |
| Vni.NoClashIff | controlplane/pkg/vni/vni.go:37-51 | identifiers for the tunnel between two addresses never clash, in any interleaving, iff each host spells the other's address in one way and allocates at most 2^63; then they start again |
| Vni.SecondSpellingClashes | controlplane/pkg/vni/vni.go:37-51 | two spellings of one remote address get the same first identifier |
| Vni.FitsHeader | controlplane/pkg/apis/remote/connection/helpers.go:144-148 | exactly the first 2^23 - 1 identifiers of each turn of 2^63, and the one that ends a turn, fit 24 bits |
| Vni.NthVni | controlplane/pkg/vni/vni.go:38-51 | the n-th identifier under a spelling is 2n, plus one on the side with the smaller address, in 64 bits |
| Vni.VniAllocator.Vni | controlplane/pkg/vni/vni.go:38-51 | the next identifier for a remote address, in 64-bit arithmetic |
| Vni.CompareIps | controlplane/pkg/vni/vni.go:53-63 | the order of two addresses, for all inputs on which the source does not panic |
| Vni.CompareAntisymmetric | controlplane/pkg/vni/vni.go:53-63 | both ends see the same order from opposite sides, a tie only for equal addresses |
| Vni.CompareIsOrder | controlplane/pkg/vni/vni.go:53-63 | the order of addresses of one length is that of their values |
| Vni.SmallerIsOdd | controlplane/pkg/vni/vni.go:37-51 | the odd side is the host with the smaller address |
| Sriov.HistoryRegroupsIff | controllers/sriov-controller/sriov-controller.go:227-289 | all along a history the groups are the current entries grouped from scratch, none empty, iff every change is orderly |
| Sriov.UpdateGroups | controllers/sriov-controller/sriov-controller.go:255-278 | the result of an update in any message order; it is the new configuration iff no entry changed under its key |
| Sriov.ChangedEntryStays | controllers/sriov-controller/sriov-controller.go:244-278 | a concrete entry that moves to another service under its key stays in its old group |
| Sriov.StepRegroupsIff | controllers/sriov-controller/sriov-controller.go:227-289 | a change keeps the grouping exact iff it is orderly |
| Sriov.NewConfigGroupsIff | controllers/sriov-controller/sriov-controller.go:227-242 | an added map is grouped exactly iff it keeps every earlier entry in its service |
| Sriov.AddsLayOver | controllers/sriov-controller/service-controller.go:76-101 | adds in any order lay their entries over the groups |
| Sriov.ProcessConfigMap | controllers/sriov-controller/sriov-controller.go:215-225 | every entry parsed, or an error iff one does not parse |
| Sriov.DiffMap | controllers/sriov-controller/sriov-controller.go:244-253 | the entries whose keys the other map lacks |
| Sriov.SendAdds | controllers/sriov-controller/sriov-controller.go:237-239 | an add message for exactly the entries |
| Sriov.SendDeletes | controllers/sriov-controller/sriov-controller.go:269-271 | a delete message for exactly the entries, each once |
| Sriov.ConfigController.ProcessConfigMapAdd | controllers/sriov-controller/sriov-controller.go:227-242 | the new configuration and its messages; nothing if the map did not parse |
| Sriov.ConfigController.ProcessConfigMapUpdate | controllers/sriov-controller/sriov-controller.go:255-278 | the new configuration; deletes for removed keys, then adds for new ones; nothing if the map did not parse |
| Sriov.ConfigController.ProcessConfigMapDelete | controllers/sriov-controller/sriov-controller.go:280-289 | the empty configuration and one message |
| Sriov.AddGroups | controllers/sriov-controller/service-controller.go:76-101 | adding an entry keeps the grouping exact |
| Sriov.DeleteGroups | controllers/sriov-controller/service-controller.go:103-129 | deleting an entry keeps the grouping exact and leaves no empty group |
| Sriov.ServiceController.ProcessAdd | controllers/sriov-controller/service-controller.go:76-101 | the entry in the group of its service, which is created if need be |
| Sriov.ServiceController.ProcessDeleteEntry | controllers/sriov-controller/service-controller.go:103-129 | the entry out of its group, and the group gone with its last entry |
| Sriov.ServiceController.Stop | controllers/sriov-controller/service-controller.go:145-157 | no groups |

## Left out

- Text: CIDR and IP parsing and printing. Prefixes are networks of one address family with no host bits
  set, so two spellings of one network are not distinguished. An IPv6 prefix of IPv4-mapped addresses,
  which prints as an IPv4 prefix, stays an IPv6 prefix here.
- Extraction.ExtractPrefix: does not model that the exact-match branch shifts the caller's slice in place;
  `ExtractPrefixes` works on a copy for that reason. Other sharing of slices (the lists that
  `GetNetworkServiceEndpoints` and `Get` return) is not modelled either.
- Coalescing.ReleasePrefixes: requires networks of one family that are equal or disjoint, which the pool
  establishes for every release; on overlapping input the source can join networks that are not free
  (`Coalescing.OverlapJoins`).
- PrefixPools.PrefixPool.constructor: requires disjoint base prefixes of one family, which the source
  leaves as a validation to be added.
- Extraction.ValidIff: the limit for IPv6 is 128, as the code has it, where its error text says 32. `subnet` is
  modelled with its range check, which lets index 2 through, but no caller passes it.
- Locks, goroutine scheduling, channels and their capacity: each method or loop iteration is one step.
- gRPC, dialling, timeouts, logging, and everything the manager asks of the outside: answers are
  parameters. `performNSERequest` and `closeDataplane` are such answers.
- Connections.Manager.Heal: a connection without a request cannot be healed by sending it again; the source
  crashes there, and the method requires a request in those cases.
- EndpointIndex.EndpointModel.DeleteEndpoint: compares registrations by value where the source compares
  pointers, which differs only if equal registrations were added twice.
- Monitor.CopyEvent: does not model that the copy shares the connection objects inside a cross connect.
- Selector.RoundRobin.SelectEndpoint: does not model nil endpoints and the overflow of the counter.
- Vni.VniAllocator.Vni: takes parsed addresses, empty for one that does not parse, and requires that the
  comparison does not run past the end of the remote one, where the source panics.
- Vni.NoClashIff: takes it that a host passes one pair of addresses under a spelling of the tunnel, as one
  local address and the parser make it.
- Sriov.ProcessConfigMap: takes the YAML parser of one entry as a parameter. `processUpdate`, which no
  controller sends for, is left out.
- Listeners of the model, dataplane selection, remote peer counters, vpp-agent converters, the admission
  webhook, SR-IOV discovery and generated code: they would add only easy members or foreign data.
