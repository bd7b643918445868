# Agent registry: verified models

This project models, in Dafny, the parts of the agent registry in which state is spread over many
steps or many nodes, and proves what they promise over every input, every run or every reachable
state:

- the **Kademlia DHT** (`NodeId.dfy`, `Routing.dfy`, `RoutingInvariant.dfy`, `RoutingInterleaved.dfy`,
  `Nearest.dfy`, `Lookup.dfy`, `LookupComplete.dfy`, `LookupDetermined.dfy`, `DhtNode.dfy`,
  `DhtNetwork.dfy`): the XOR metric, k-buckets with ping-before-evict, iterative lookups driven by
  arbitrary replies, and a record store replicated over a network that loses, delays and duplicates
  messages;
- the **gossip protocol** (`GossipHandler.dfy`, `GossipHistory.dfy`, `GossipInterleaved.dfy`,
  `GossipMesh.dfy`, `GossipMeshHistory.dfy`): deduplication, origin pinning and tombstones at one node,
  overlapping receipts, termination and reach of floods in a mesh;
- the two **BM25 keyword indexes** (`Bm25.dfy`, `Keyword.dfy`, `KeywordV2.dfy`): statistics kept by
  increments, which equal a count from scratch, searches that return the top of the naive score, and what
  that score prefers;
- the **bounded caches and filters** (`LruCache.dfy`, `LruInterleaved.dfy`, `Bloom.dfy`,
  `MeshRouting.dfy`, `RateLimiter.dfy`), each against a simpler specification over whole histories;
- the **parser and printer of fully qualified agent names** (`Fqan.dfy`), which undo each other.

`Common.dfy` holds what several of them share.

`dafny verify dfyconfig.toml` checks everything.

## How to read it

Code that changes fields in place is a class whose methods are proved to compute a function on values
(`KBucket.AddOrUpdate` computes `Added`, `GossipHandler.HandleAnnouncement` computes `Handle`, and so
on); the theorems about whole histories, interleavings and networks are lemmas about those functions.
Whatever comes from outside is an input: clock readings, ping outcomes, replies of other nodes (any
reply, in any order, or a timeout), database failures, signature checks, hash functions, the logarithm,
tokenizers and lower-casing.

Some results show where the code does less than its documentation says, or less than one might expect:

- The documentation describes multi-hop propagation with a hop limit (`docs/ARCHITECTURE.md`, section
  3). The signature covers the hop count, and forwarding raises the count without signing again. So with
  ideal signatures every forwarded copy is dropped, and only direct neighbours of the originator accept
  an announcement (`OnlyHopZeroIsAccepted`, `ForwardedCopiesAreDropped`, `OnlyNeighboursAccept`).
- A local broadcast is marked under the entity identifier, the handler's key depends on the kind of
  announcement. The echo of an own announcement is therefore suppressed exactly when the two keys agree
  (`KeysAgreeIff`, `EchoAcceptedIff`).
- The pin is not consulted for registrations: an accepted registration rewrites the profile of a pinned
  row and sets its status, but never changes its key or its tombstone (`RegistrationRewrites`).
- Duplicates in replies can crowd known contacts out of a lookup: told k times of one contact, a lookup
  returns it alone although it knows two (`DuplicatesCrowdOut`). Exactly which identifiers come back is
  determined by the replies: those to which fewer than k offers, counted with repetitions, are nearer
  (`FindNode`). So the k closest that were learned come back if and only if no repetition takes the place
  of one of them (`CompleteIff`), in particular whenever no identifier is offered twice
  (`DistinctOffersNeverCrowd`). Every round still asks the nearest contacts not yet asked, and unless the
  timeout expires nothing left out is nearer than anything returned.
- Overlapping `AddNode` calls can insert one contact twice (`OverlappingAddsDuplicate`); identifiers stay
  distinct throughout an interleaving exactly when no newcomer replaces a silent head of a bucket that
  meanwhile has it (`InterleavingDistinctIff`). Capacity, placement, self-exclusion and recency order
  survive every interleaving (`EveryInterleavingKeepsInv`).
- The check for a mark and the mark of an announcement are under separate locks, so two overlapping
  receipts can both be accepted (`OverlappingReceiptsBothPass`): of two checks the second passes exactly
  if it comes before the first mark (`SecondPassesIff`).
- In the LRU cache, two overlapping `Get`s of an expired entry can separate map and list
  (`BijectionCanBeLost`); they stay in bijection throughout an interleaving exactly when no `Get` removes an
  element that the map has replaced meanwhile (`InterleavingBijectiveIff`).
- A 60-second interval may span two minutes of the rate limiter. It never allows more than `2 * rate - 1`
  requests (`FewerThanTwiceTheRate`), some run allows that many (`TwiceTheRateIsReached`), and the rate is
  the bound exactly when no tokens are left over from a minute that began before the interval
  (`WithinRateIff`).

## Model

| member | source | states |
|---|---|---|
| `NodeIds.Distance` | internal/dht/types.go:65-71 | The loop computes the bytewise exclusive or of two identifiers; its value is the metric `Dist` |
| `NodeIds.DistIsXor` | internal/dht/types.go:65-71 | The distance is the exclusive or of the two identifiers as numbers: each of its binary digits is set exactly where theirs differ |
| `NodeIds.LessThan` | internal/dht/types.go:95-105 | The byte scan answers exactly the order of the identifiers as 256-bit integers |
| `NodeIds.LeadingZeros` | internal/dht/types.go:85-92 | The number of leading zero bits: 256 only for zero, else it fixes the binary magnitude of the value |
| `NodeIds.DistSymmetric` | internal/dht/types.go:65-71 | The distance is symmetric |
| `NodeIds.DistZeroOnlyOnEqual` | internal/dht/types.go:65-71 | The distance is zero exactly on equal identifiers |
| `NodeIds.DistInjective` | internal/dht/types.go:65-71 | Two identifiers are equally far from a third exactly when they are the same, in either argument |
| `NodeIds.TriangleInequality` | internal/dht/types.go:65-71 | The distance satisfies the triangle inequality |
| `NodeIds.FirstDifferenceDecides` | internal/dht/types.go:95-105 | The first differing byte decides the numeric order, whatever follows |
| `NodeIds.KeyFromHexUndoesHex` | internal/dht/dht.go:519-520 | Decoding the hexadecimal store key into an identifier gives the original key back |
| `NodeIds.HexInjective` | internal/dht/types.go:108-110 | Different identifiers have different hexadecimal forms, so store keys never collide |
| `NodeIds.StoreKeyIff` | internal/dht/dht.go:474-492 | A text is the store key of an identifier exactly if it consists of 64 lower-case hexadecimal digits and decodes to it |
| `Routing.KBucket.AddOrUpdate` | internal/dht/routing.go:55-76 | A known contact is replaced by the new data at the tail, a new one is appended if there is room, else nothing changes and the head is offered for eviction |
| `Routing.KBucket.MoveToTail` | internal/dht/routing.go:88-97 | The entry with the identifier moves to the tail with a new time, everything else keeps its order |
| `Routing.KBucket.Remove` | internal/dht/routing.go:100-107 | The first entry with the identifier goes, everything else stays |
| `Routing.BucketIndex` | internal/dht/routing.go:138-147 | The computed index is the position of the highest bit of the distance, 0 for self |
| `Routing.BucketIsDistanceBand` | internal/dht/routing.go:138-147 | For a target other than self the index is i exactly when 2^i <= distance < 2^(i+1) |
| `Routing.RoutingTable.AddNode` | internal/dht/routing.go:151-161 | Self is ignored; otherwise exactly the bucket of the contact changes as the bucket operation says |
| `Routing.RoutingTable.RemoveNode` | internal/dht/routing.go:164-170 | Exactly the bucket of the identifier loses that identifier |
| `Routing.RoutingTable.EvictAndReplace` | internal/dht/routing.go:173-180 | Exactly the named bucket has its head replaced; an index out of range changes nothing |
| `Routing.RoutingTable.MarkSeen` | internal/dht/routing.go:183-189 | Exactly the bucket of the identifier has that entry moved to its tail |
| `Routing.RoutingTable.FindClosest` | internal/dht/routing.go:192-213 | The min(count, size) nearest contacts in ascending order, none left out nearer than one returned; with distinct contacts strictly ascending and every omitted contact strictly farther |
| `Routing.ClosestIsUnique` | internal/dht/routing.go:192-213 | The answer depends only on the set of contacts: not on bucket order, entry order or the treatment of ties by the sort |
| `RoutingInvariant.StepKeeps` | internal/dht/routing.go:151-189 | Every operation keeps capacity, distinct identifiers, recency order, placement by bucket index and absence of self |
| `RoutingInvariant.EveryRunKeepsTableInv` | internal/dht/dht.go:183-192 | The whole table invariant holds after every sequence of adds (any ping outcome), answered pings, removals and mark-seen steps under a clock that never runs back |
| `RoutingInvariant.ContactsDistinct` | internal/dht/routing.go:192-202 | Under the invariant all contacts of all buckets together are distinct and none is self |
| `RoutingInvariant.AddPolicy` | internal/dht/dht.go:183-192 | Ping before evict, to the entry: a known contact moves to the tail with its new data, a new one takes free room, and into a full bucket it comes only in place of a least recently seen head that did not answer; all other entries stay as they were and in order, and no other bucket changes |
| `RoutingInvariant.RemovePolicy` | internal/dht/routing.go:164-170 | A removal takes the contact with the identifier out of the table and leaves every other contact, as it was and in order |
| `RoutingInvariant.MarkSeenPolicy` | internal/dht/routing.go:183-189 | A known contact becomes the most recent of its bucket with the new time; nothing else changes |
| `RoutingInvariant.EvictKeepsDistinctIff` | internal/dht/routing.go:79-85 | Replacing the head keeps identifiers distinct exactly when the newcomer is not elsewhere in the bucket |
| `RoutingInvariant.EvictReplacesLeastRecent` | internal/dht/routing.go:79-85 | A newcomer displaces exactly the entry that was seen least recently and becomes the most recent one; the bucket keeps capacity, distinctness and recency order |
| `RoutingInterleaved.EveryInterleavingKeepsInv` | internal/dht/dht.go:183-192 | With add, ping and replace interleaved in any way, capacity, placement and self-exclusion hold at every point, and recency order too under a clock that never runs back |
| `RoutingInterleaved.UninterruptedIsAdd` | internal/dht/dht.go:183-192 | With nothing in between, the steps of one call are the atomic add |
| `RoutingInterleaved.MicroKeepsDistinctIff` | internal/dht/routing.go:55-107 | A step of an interleaving keeps identifiers distinct exactly unless it replaces a silent head in a bucket whose rest has the newcomer by now |
| `RoutingInterleaved.InterleavingDistinctIff` | internal/dht/dht.go:183-192 | Identifiers are distinct at every point of an interleaving if and only if every replacement in it meets that guard |
| `RoutingInterleaved.OverlappingAddsDuplicate` | internal/dht/dht.go:183-192 | Two overlapping adds of one contact to a full bucket with a silent head insert it twice |
| `Lookup.FindNode` | internal/dht/dht.go:268-376 | For any replies the lookup ends; the contacts are strictly ascending, distinct, at most k, never self, all learned, and the first is nearest of all seeds and all contacts in collected replies. Every round is greedy: it asks identifiers at least as near as anything known and not asked; it asks the first alpha candidates not yet asked, so alpha requests are made unless every identifier that was offered, not asked and has fewer than k nearer offers is asked; and every round but the last brings news. The lookup ends only when time is up, a round brought no news, or everybody returned and somebody as near as anything learned was asked. Unless time was up, no learned identifier left out is nearer than one returned, and returned are exactly the identifiers to which fewer than k offers, with repetitions, are nearer; after a timeout they are the k nearest of the candidates before the last round and what that brought until then |
| `Lookup.FindValue` | internal/dht/dht.go:378-470 | For any replies the lookup ends, after greedy rounds, each of which asks the first alpha candidates not yet asked; it returns a value exactly when a collected reply carries one, namely that of the first such reply; without one it ends only when time is up, a round brought no news, or nobody is left to ask and the nearest was asked |
| `Lookup.AskAndCut` | internal/dht/dht.go:284-354 | One pass of either loop keeps the search invariant: the candidates are the k nearest of everything ever offered, repetitions included, and every learned identifier was offered; and it says why the loop stops |
| `Nearest.SortedPrefixIsKNearest` | internal/dht/dht.go:345-353 | Sorting and cutting keeps within every distance as many entries as there are, up to k |
| `Nearest.CutsCompose` | internal/dht/dht.go:345-353 | Cutting to k after every round keeps the same as one cut of all that was offered |
| `Nearest.KeptIff` | internal/dht/dht.go:345-353 | An identifier survives exactly if it was offered and fewer than k offers, with repetitions, are strictly nearer |
| `Lookup.LeftOutAreFarther` | internal/dht/dht.go:357-375 | What deduplication and the last cut leave out is no nearer than what is returned |
| `Lookup.RoundsAtMostIds` | internal/dht/dht.go:284-343 | No identifier is asked in two rounds, so there are at most as many rounds as identifiers that can be learned |
| `Lookup.QueriedIsBounded` | internal/dht/dht.go:284-343 | The set of asked identifiers is bounded whatever the replies name: the termination measure of both lookups |
| `Lookup.AskRound` | internal/dht/dht.go:304-339 | A round asks at least one new identifier, and unless a value cut it short some candidate is still as near as anything learned, also after a timeout |
| `Lookup.PickUnqueried` | internal/dht/dht.go:286-297 | The first alpha candidates not asked in an earlier round, in order: alpha of them or all that are left; none farther than another candidate that was not asked; none is picked only if all were asked |
| `Lookup.AsksWidely` | internal/dht/dht.go:286-297 | A round makes alpha requests, or asks every identifier that was offered, not yet asked, and has fewer than k nearer offers |
| `Lookup.Collect` | internal/dht/dht.go:324-339 | The answers of a round are taken in order of arrival until all have come, time is up or a wanted value came; the candidates grow by exactly their contacts not yet asked, and grow if there are any |
| `Lookup.SortAndCut` | internal/dht/dht.go:345-353 | Sorting and truncating may lose contacts, but keeps the k nearest entries and never loses a nearest one |
| `Lookup.Append` | internal/dht/dht.go:331-337 | Exactly the contacts of a reply that are neither self nor asked are appended, in order and with repetitions |
| `LookupComplete.CompleteIff` | internal/dht/dht.go:331-375 | A lookup that was not cut short returns exactly the min(k, learned) nearest of the identifiers it learned if and only if no identifier to which fewer than k others are nearer has k nearer offers |
| `LookupComplete.DistinctOffersNeverCrowd` | internal/dht/dht.go:331-353 | If no identifier is offered twice, nothing is crowded out |
| `LookupComplete.DuplicatesCrowdOut` | internal/dht/dht.go:268-376 | For every k >= 2, a whole lookup from one contact that is told k times of a nearer one learns two identifiers and returns one |
| `LookupDetermined.TranscriptIsDetermined` | internal/dht/dht.go:268-465 | The contract of the lookups leaves no choice: from the same seeds and the same arrivals, whom each round asks, what it hears and when the search ends are determined, whatever the sort does with ties |
| `LookupDetermined.NodeLookupIsDetermined` | internal/dht/dht.go:268-376 | Two node lookups of one node in one state, answered alike, run alike and return the same identifiers in the same order, also after a timeout |
| `LookupDetermined.ValueLookupIsDetermined` | internal/dht/dht.go:378-470 | Two value lookups of one node in one state, answered alike, run alike and return the same value or none |
| `Lookup.Deduplicate` | internal/dht/dht.go:357-365 | The first contact of every identifier is kept, and no identifier is lost |
| `DhtNode.Dht.AddNode` | internal/dht/dht.go:183-192 | Adds, pings the candidate and keeps or replaces it, keeping the table invariant |
| `DhtNode.PutGet` | internal/dht/dht.go:474-492 | A key reads back what was last put under it, and a put disturbs no other key |
| `DhtNode.UnexpiredGet` | internal/dht/dht.go:553-563 | Expiry hides exactly the keys stored before the cutoff |
| `DhtNode.Dht.HandleMessage` | internal/dht/dht.go:195-264 | Every request adds its sender and is served from the local state: store, local value or the k closest contacts; an unknown kind is refused |
| `DhtNode.Dht.LookupNodes` | internal/dht/dht.go:178-180 | A lookup seeded with the alpha contacts of the table nearest to the target, with all the promises of the iterative lookup |
| `DhtNode.Dht.StoreRecord` | internal/dht/dht.go:136-165 | The record is stored locally and sent once, under its key, to each of the nodes that a lookup of the key found |
| `DhtNode.Dht.FindRecord` | internal/dht/dht.go:168-175 | A local record wins; else a lookup from the closest known contacts takes place, with all the promises of the iterative value lookup, whose first value is returned and cached under the key; without one nothing changes |
| `DhtNode.Dht.Expire` | internal/dht/dht.go:553-563 | Exactly the records older than the limit are deleted |
| `DhtNode.Dht.Republish` | internal/dht/dht.go:509-537 | What is sent is exactly every stored record, under the key decoded from its hexadecimal form, to the nodes a lookup of that key found |
| `DhtNetwork.NextSound` | internal/dht/dht.go:195-264 | Every step of the network keeps every stored, travelling and returned record traceable to a call of Store with its key |
| `DhtNetwork.EveryRunIsSound` | internal/dht/dht.go:136-264 | The traceability invariant holds in every run with loss, delay and duplication of messages |
| `DhtNetwork.NothingFromNowhere` | internal/dht/dht.go:168-175 | Whatever is held under a key at any node, and whatever FindValue ever returned for it, was earlier passed to Store with that key: through caching, republishing and expiry |
| `DhtNetwork.StoredStaysReadable` | internal/dht/dht.go:474-563 | A stored record stays readable at its node in every continuation of the run without an overwrite, an expiry that reaches it or a restart of the node |
| `DhtNetwork.StoredIsFound` | internal/dht/dht.go:136-264 | What one node stores, another handles and keeps, and a third asks for reaches the third: its value is the record, returned and cached, whatever else happens in the network in between |
| `DhtNetwork.RepublishedUnderItsKey` | internal/dht/dht.go:509-537 | Republishing sends a held record under the very key it is held under |
| `Gossip.GossipHandler.HandleAnnouncement` | internal/mesh/gossip.go:100-347 | Hop limit, signature, deduplication, marking, origin check and row update in this order; what is passed on is the announcement with one more hop |
| `Gossip.GossipHandler.VerifyOriginAuthorization` | internal/mesh/gossip.go:571-592 | A pinned row admits only its own key; an unpinned row, or no row where none is required, admits any; a failed read admits none |
| `Gossip.GossipHandler.ApplyAgentAction` | internal/mesh/gossip.go:271-325 | What each agent action does to the rows and when it is refused |
| `Gossip.GossipHandler.CleanDedupWindow` | internal/mesh/gossip.go:595-611 | Exactly the marks older than the window are deleted |
| `GossipHistory.MarkLasts` | internal/mesh/gossip.go:128-151 | A mark survives any interleaving with cleaner ticks, broadcasts and other announcements for the length of the window |
| `GossipHistory.AcceptancesAreApart` | internal/mesh/gossip.go:128-151 | Two acceptances of one deduplication key at a node are always more than the window apart |
| `GossipHistory.AcceptedIff` | internal/mesh/gossip.go:100-151 | In every history a verified, signed announcement with hops left is accepted exactly if each earlier mark of its key met a cleaner tick more than a window later |
| `GossipHistory.OwnAgentEchoIsDropped` | internal/mesh/gossip.go:67-81 | An originator ignores the echo of its own agent announcement within the window |
| `GossipHistory.KeysAgreeIff` | internal/mesh/gossip.go:128-140 | The two deduplication keys agree exactly when the handler's identifier is the entity identifier, as for agent announcements |
| `GossipHistory.EchoAcceptedIff` | internal/mesh/gossip.go:67-81 | The echo of an own announcement is accepted exactly when the two keys differ |
| `GossipHistory.PinKeptWhileRowExists` | internal/store/postgres.go:651-668 | While a row exists its non-empty origin key never changes |
| `GossipHistory.EventRespectsPin` | internal/mesh/gossip.go:271-325 | A pinned row is tombstoned only by a deregistration with its key, gets a status only by a status announcement with its key (or "active" by registration or keyed update), and a new profile only by registration or keyed update |
| `GossipHistory.EveryEventRespectsPin` | internal/mesh/gossip.go:271-325 | The same for every event of every history, as long as the row exists |
| `GossipHistory.RowChangesIff` | internal/mesh/gossip.go:271-325 | What every event does to every row, column by column and in both directions: which events tombstone it, set its status, pin it and rewrite its profile, with which values, and that no other event changes anything |
| `GossipHistory.AppearsIff` | internal/mesh/gossip.go:281-308 | A row appears exactly by a registration or an authorised update, showing the announced profile |
| `GossipHistory.PassedOnIff` | internal/mesh/gossip.go:271-346 | Passed on, one hop further and otherwise unchanged, is exactly what is accepted and not refused for its key |
| `GossipHistory.RegistrationRewrites` | internal/store/postgres.go:651-668 | An accepted registration rewrites the profile of an existing row and sets its status to "active", whatever key it carries, but changes neither its home registry nor its tombstone |
| `GossipHistory.NewRowIsPinned` | internal/mesh/gossip.go:281-308 | A row appears only by registration or update, live, and pinned to the key of that announcement |
| `GossipHistory.DeletedIffTombstoned` | internal/store/postgres.go:781-794 | A row disappears if and only if garbage collection finds it tombstoned at an earlier time, and garbage collection changes no other row |
| `GossipHistory.TombstonedStaysHidden` | internal/store/postgres.go:681-688 | A tombstoned row never reappears in search before it is deleted, also after re-registration |
| `GossipHistory.DeregisteredIsHidden` | internal/mesh/gossip.go:318-324 | After an authorised deregistration the row is in no search as long as it exists |
| `GossipHistory.DeregisteredIsCollected` | internal/store/postgres.go:781-794 | The first collection later than an authorised deregistration and all events since deletes the row |
| `GossipHistory.LiveStaysSearchable` | internal/store/postgres.go:681-688 | A live row exists and is in exactly the searches it matches, through every history in which no deregistration gets through to it |
| `GossipHistory.TombstoneTraced` | internal/store/postgres.go:753-758 | For every pinned row that got tombstoned, some event of the history was a deregistration carrying its key |
| `GossipInterleaved.CheckThenMarkIsHandle` | internal/mesh/gossip.go:141-151 | A receipt whose mark follows its check at once is handled exactly as the atomic model says |
| `GossipInterleaved.PassesAreApartFromMarks` | internal/mesh/gossip.go:128-151 | In every interleaving of checks, marks, broadcasts and cleaner ticks, a check that passes comes more than a window after every earlier mark of its key |
| `GossipInterleaved.SecondPassesIff` | internal/mesh/gossip.go:141-151 | In every such interleaving, of two checks of one key, the first of which passes, the second passes too within the window of the first mark set after the first check, if and only if it comes before that mark |
| `GossipInterleaved.OverlappingReceiptsBothPass` | internal/mesh/gossip.go:141-151 | Two overlapping receipts of one announcement are both accepted and both passed on |
| `GossipMesh.BroadcastExcept` | internal/mesh/transport.go:601-622 | One copy to every connected peer except the given one |
| `GossipMesh.DeliveryLowersPotential` | internal/mesh/transport.go:495-511 | Every delivery strictly lowers the sum of (d+1)^(hops left) over all copies in flight, whatever the signature check, the database and the marks say |
| `GossipMesh.FloodsEnd` | internal/mesh/gossip.go:100-104 | In every run with at most d connections per node, deliveries plus the potential in flight never exceed what the broadcasts put in, even when marks are cleaned mid-flood |
| `GossipMesh.OnlyHopZeroIsAccepted` | internal/mesh/gossip.go:106-126 | With ideal signatures, every announcement accepted in any run has hop count 0 |
| `GossipMesh.ForwardedCopiesAreDropped` | internal/mesh/gossip.go:344-346 | With ideal signatures the delivery of a forwarded copy does nothing but consume it |
| `GossipMesh.EveryRunKeepsFirstHop` | internal/mesh/transport.go:601-622 | In every honest run each hop-0 copy in flight is on its way to a peer of its originator that was connected when it was broadcast |
| `GossipMesh.OnlyNeighboursAccept` | internal/mesh/transport.go:507-509 | In every run of nodes that broadcast what they made with the Create functions, only direct neighbours of the originator accept an announcement |
| `GossipMesh.NeighbourAcceptsIff` | internal/mesh/transport.go:495-511 | In every run of honest nodes a first-hop copy reaches a direct neighbour of its originator, which accepts it exactly if it is signed, has hops left and its key is not marked |
| `GossipMesh.DeliveryReaches` | internal/mesh/transport.go:495-511 | What a receiver lets through goes, one hop further, to every peer of the receiver but the sender; only the receiver changes its state |
| `GossipMeshHistory.EveryNodeHasAHistory` | internal/mesh/transport.go:495-511 | In every run of the mesh the state of every node is that of a new node after its own history, so that what holds over all histories of one node holds of every node in every mesh |
| `GossipMeshHistory.AcceptancesInMeshAreApart` | internal/mesh/gossip.go:128-151 | In every run of the mesh a node that stays accepts announcements with one key only more than a window apart |
| `GossipMeshHistory.CopiesAreConserved` | internal/mesh/transport.go:601-622 | In every run the copies sent are those delivered, those lost and those still in flight |
| `GossipMesh.Unsigned` | internal/mesh/gossip.go:352-566 | All seven Create functions start at hop 0 with the configured limit and the origin's key |
| `GossipMesh.CreatedIsUnderstood` | internal/mesh/gossip.go:352-566 | Creator and handler agree for all seven kinds: on what the announcement is deduplicated by, on whether it concerns an agent, on action, status, profile and home registry |
| `Bm25.Decrement` | internal/search/keyword.go:53-61 | Every term of a removed document counts one less, and a count that reaches zero is deleted |
| `Bm25.Increment` | internal/search/keyword.go:95-98 | Every term of an added document counts one more, and no other count changes |
| `Bm25.RemovalKeepsExact` | internal/search/keyword.go:53-61 | After the decrements df counts exactly the documents that are left |
| `Bm25.AdditionKeepsExact` | internal/search/keyword.go:92-98 | After the increments df counts exactly the documents including the new one |
| `Bm25.CountTerms` | internal/search/keyword.go:74-79 | Term frequencies are the multiplicities of the tokens |
| `Bm25.SumLengths` | internal/search/keyword.go:100-104 | The sum over the map, in any order, is the total number of token positions |
| `Bm25.IdfPositive` | internal/search/keyword.go:171 | Every inverse document frequency is positive |
| `Bm25.IdfIsLogOfRarity` | internal/search/keyword.go:171 | The inverse document frequency is the logarithm of (N + 1) / (df + 0.5) |
| `Bm25.RarerWeighsMore` | internal/search/keyword.go:171 | For every strictly increasing logarithm, of two terms the rarer one weighs more |
| `Bm25.ContributionBounds` | internal/search/keyword_v2.go:286-297 | A term that occurs contributes more than 0 and less than idf * (k1 + 1); the denominator is positive |
| `Bm25.OnceInAverageText` | internal/search/keyword.go:179-184 | In a text of average length, a term that occurs once contributes exactly its idf |
| `Bm25.ContributionGrows` | internal/search/keyword.go:179-184 | A contribution grows strictly with the idf and with the number of occurrences, and shrinks strictly with the length of the text |
| `Bm25.Rank` | internal/search/keyword.go:188-201 | The best maxResults of the scored documents, best first, no document twice, none left out that scores higher |
| `Keyword.KeywordIndex.IndexDocument` | internal/search/keyword.go:48-108 | The document is added or replaced and all statistics are exactly those of the documents now indexed |
| `Keyword.KeywordIndex.RemoveDocument` | internal/search/keyword.go:111-140 | The document goes, an unknown one changes nothing, and all statistics are exactly those of the documents left |
| `Keyword.ExactIsFromScratch` | internal/search/keyword.go:48-140 | An index is determined by the cards of its live documents: any history gives what building it from scratch gives |
| `Keyword.KeywordIndex.Search` | internal/search/keyword.go:149-202 | The top maxResults under the naive score computed from the documents alone |
| `Keyword.ScoredIffMatching` | internal/search/keyword.go:164-186 | Exactly the documents with a query term are scored, each above zero |
| `Keyword.FoundByItsWords` | internal/search/keyword.go:64-79 | A document is found by exactly the words of its name, summary, category and tags, for every tokenizer that cuts at spaces: the joined texts do not run into each other |
| `Keyword.BetterMatchComesFirst` | internal/search/keyword.go:164-202 | Of two documents that each match one term of the query, the one with the rarer term, more occurrences or the shorter text, if it is worse in none of these, comes first and is never cut off while the other stays |
| `Keyword.GainBounds` | internal/search/keyword.go:171-184 | On a well-formed index a matching term has positive idf and contributes strictly between 0 and idf * (k1 + 1) |
| `KeywordV2.ImprovedKeywordIndex.IndexDocument` | internal/search/keyword_v2.go:67-143 | The document is added or replaced; document frequencies over all fields and the average length of every field are exact |
| `KeywordV2.ImprovedKeywordIndex.RemoveDocument` | internal/search/keyword_v2.go:146-159 | The document goes and all statistics are exactly those of the documents left |
| `KeywordV2.RemoveTerms` | internal/search/keyword_v2.go:162-182 | A term is counted once per document however many fields hold it |
| `KeywordV2.RecalculateAvgLengths` | internal/search/keyword_v2.go:185-205 | The averages of all four fields, 0 without documents |
| `KeywordV2.ExactIsFromScratch` | internal/search/keyword_v2.go:67-205 | Any history gives what building the index from scratch gives |
| `KeywordV2.ImprovedKeywordIndex.Search` | internal/search/keyword_v2.go:208-283 | The top maxResults under the naive boosted score with phrase bonus, nothing for a query without terms |
| `KeywordV2.ScoredIffMatching` | internal/search/keyword_v2.go:228-267 | Exactly the documents with a query term in some field or, when the query has terms, a quoted phrase are scored, each above zero |
| `KeywordV2.FoundByItsWords` | internal/search/keyword_v2.go:78-101 | A document is found by exactly the tokens of its name, summary, category and tags or, when the query has terms, by a phrase |
| `KeywordV2.BetterMatchComesFirst` | internal/search/keyword_v2.go:228-283 | Of two documents that each match one term, the one that matches at least as well in every field, has as many phrases and is better somewhere comes first and is never cut off while the other stays |
| `KeywordV2.TermGainAt` | internal/search/keyword_v2.go:237-257 | The guard on a positive field score lets through exactly the documents with the term, with the naive gain |
| `KeywordV2.FieldGainBounds` | internal/search/keyword_v2.go:286-297 | Before the boost a field gains something exactly if it has the term, and less than idf * (k1 + 1) |
| `KeywordV2.BoostOfField` | internal/search/keyword_v2.go:237-257 | A match in one field alone counts once in the summary, 1.5 times in the category, twice in the tags and three times in the name |
| `KeywordV2.HigherFieldScoresMore` | internal/search/keyword_v2.go:237-257 | For equal gains of the fields a match in the name outscores one in the tags, that one in the category, that one in the summary, and no other pair |
| `KeywordV2.AddPhrases` | internal/search/keyword_v2.go:260-267 | Every document gains the bonus once for each quoted phrase it contains |
| `KeywordV2.PhrasesAreWorthFive` | internal/search/keyword_v2.go:260-267 | The phrases add exactly five for each quoted phrase the document contains, repetitions included |
| `KeywordV2.PhraseFoundIff` | internal/search/keyword_v2.go:300-338 | A phrase is contained exactly if the lower-cased name, summary, category or a tag has it in one piece |
| `KeywordV2.ExtractPhrases` | internal/search/keyword_v2.go:309-328 | The scan finds what `Outside` defines |
| `KeywordV2.QuotedPhrasesAreFound` | internal/search/keyword_v2.go:309-328 | The phrases written between quotes are found, in order and exactly; a last unclosed quote is ignored |
| `LruCache.Cache.Get` | internal/card/cache.go:39-63 | A live entry is returned and becomes most recent, an expired one is removed, a miss changes nothing |
| `LruCache.Cache.Put` | internal/card/cache.go:66-91 | The entry becomes most recent with a new expiry; a new key in a full cache drops the least recent one |
| `LruCache.Cache.Remove` | internal/card/cache.go:94-101 | Exactly the key goes |
| `LruCache.Cache.Clear` | internal/card/cache.go:111-116 | Nothing is left |
| `LruCache.Cache.EvictOldest` | internal/card/cache.go:118-123 | Exactly the least recent entry goes, from map and list |
| `LruCache.EveryHistoryKeepsSpecInv` | internal/card/cache.go:39-129 | Over every history at most maxSize entries and never two of one key |
| `LruCache.StaysRetrievable` | internal/card/cache.go:39-129 | After a put or a hit, the key returns that card until expiry, unless removed or cleared, while fewer than maxSize distinct other keys are put or hit |
| `LruCache.UseComesToFront` | internal/card/cache.go:39-91 | A put and a hit make their entry the most recent one, and a hit returns its card |
| `LruCache.RetrievableIff` | internal/card/cache.go:39-129 | Least recently used, exactly: as long as nothing is removed or expires meanwhile, the key returns its card if and only if it has not expired and fewer than maxSize distinct other keys were put or hit since its use |
| `LruInterleaved.EveryInterleavingKeepsMapIntoList` | internal/card/cache.go:39-63 | With the two lock sections of Get interleaved in any way, every map value is a live list element of its own key and both sizes stay within maxSize |
| `LruInterleaved.UninterruptedGet` | internal/card/cache.go:39-63 | The two lock sections of a Get with nothing in between do to the list what the atomic Get does |
| `LruInterleaved.PutAndRemove` | internal/card/cache.go:66-101 | So do Put and Remove, which take one lock |
| `LruInterleaved.DropKeepsBijectionIff` | internal/card/cache.go:125-129 | Removing an element keeps map and list in bijection exactly when the map has no other element for its key |
| `LruInterleaved.SectionKeepsBijectionIff` | internal/card/cache.go:39-129 | A lock section keeps the bijection exactly unless it removes a held element that the map has replaced |
| `LruInterleaved.InterleavingBijectiveIff` | internal/card/cache.go:39-129 | Map and list are in bijection at every point of an interleaving if and only if no section in it removes a replaced element |
| `LruInterleaved.BijectionCanBeLost` | internal/card/cache.go:39-63 | A concrete interleaving after which a list element has no map entry |
| `Bloom.BloomFilter.Add` | internal/mesh/bloom.go:50-57 | Sets exactly the positions of the item |
| `Bloom.PositionsGoAround` | internal/mesh/bloom.go:131-156 | The first position of an item is its first hash, and each is one stride after the one before, around the filter, while the sum fits in a word; consecutive positions differ |
| `Bloom.BloomFilter.Contains` | internal/mesh/bloom.go:61-71 | True exactly if all positions of the item are set |
| `Bloom.BloomFilter.MatchCount` | internal/mesh/bloom.go:74-82 | The number of items, with repetition, that are members |
| `Bloom.BloomFilter.Bytes` | internal/mesh/bloom.go:85-97 | Bit j of the packed form is set exactly if j is a set position |
| `Bloom.BloomFilter.FromBytes` | internal/mesh/bloom.go:100-113 | A position is set exactly if its bit is; missing bytes count as zero |
| `Bloom.BitOfIsDigit` | internal/mesh/bloom.go:85-113 | The bits of a packed byte are the binary digits of its value, the lowest first |
| `Bloom.AddKeepsMembers` | internal/mesh/bloom.go:50-71 | An added item is a member and stays one whatever is added later |
| `Bloom.ReportedIff` | internal/mesh/bloom.go:61-71 | An item is reported exactly if each of its positions is a position of some added item: never an added one missed, nothing reported by an empty filter |
| `Bloom.MatchesAtLeastAdded` | internal/mesh/bloom.go:74-82 | The match count is at least the number of query tokens that were added |
| `Bloom.SendHeartbeat` | internal/mesh/heartbeat.go:38-71 | The filter fields of a heartbeat carry every bit, the size and the number of hashes |
| `Bloom.ReceiveHeartbeat` | internal/mesh/transport.go:470-478 | The rebuilt filter has the sender's size, number of hashes and bits; none is built without filter bytes or size |
| `Bloom.RoutedMatchCount` | internal/mesh/transport.go:470-478 | End to end, a filter sent and rebuilt matches exactly like the original, so at least as often as tokens were added |
| `MeshRouting.Tokenize` | internal/mesh/heartbeat.go:128-148 | The one-pass buffer gives the lower-cased maximal runs of at least two token characters |
| `MeshRouting.TokensOfRun` | internal/mesh/heartbeat.go:128-148 | A run of token characters is one token in lower case if it has at least two characters, else none |
| `MeshRouting.TokensOfPieces` | internal/mesh/heartbeat.go:128-148 | A separator splits a text: its tokens are those before it and then those after it |
| `MeshRouting.RebuildBloom` | internal/mesh/heartbeat.go:74-124 | The set positions of the new filter are exactly those of the items that agents and gossip entries list; no item is missing |
| `MeshRouting.ItemsAre` | internal/mesh/heartbeat.go:74-124 | Listed are exactly the tokens of the name and of the summary, the category and the tags, in lower case |
| `MeshRouting.QueryTokensAre` | internal/mesh/federated.go:148-167 | A query consists of exactly the tokens of its text, its category if there is one, and its tags, in lower case |
| `MeshRouting.QueryForListedCounts` | internal/mesh/federated.go:148-167 | A query whose words are in the name or the summary of a listed agent, with or without its category and any of its tags, counts in full for the registry that lists it: every token of the text, the category and every tag |
| `MeshRouting.ListedTokensCount` | internal/mesh/heartbeat.go:74-124 | So does every query made of items of one listing |
| `MeshRouting.SortDescending` | internal/mesh/peers.go:122-129 | The exchange sort gives a descending permutation |
| `MeshRouting.Choose` | internal/mesh/peers.go:122-142 | A peer scoring at least 1 is left out only when maxPeers peers scoring at least as high were chosen |
| `MeshRouting.GetRelevantPeers` | internal/mesh/peers.go:100-143 | Peers, scored by their filter or 1 without one, come in descending order; each scores at least 1, and one scoring at least 1 is left out only when maxPeers peers scoring at least as high were chosen |
| `MeshRouting.RouteQueryForListed` | internal/mesh/heartbeat.go:38-124 | End to end through rebuilding, heartbeat, unpacking and choice of peers: a registry that lists an agent scores every token of a query for it and is left out only if maxPeers peers scoring at least as high were chosen |
| `RateLimiting.RateLimiter.Allow` | internal/api/middleware.go:41-66 | Whether the request is allowed and what becomes of all buckets |
| `RateLimiting.RateLimiter.Cleanup` | internal/api/middleware.go:68-80 | Exactly the buckets untouched for more than two minutes are deleted |
| `RateLimiting.CleanupIsInvisible` | internal/api/middleware.go:41-80 | On every trace with non-decreasing time the limiter with its cleanup loop answers like one without |
| `RateLimiting.FewerThanTwiceTheRate` | internal/api/middleware.go:41-66 | Any 60-second interval contains at most 2 * rate - 1 allowed requests per key |
| `RateLimiting.MostIsReached` | internal/api/middleware.go:41-66 | From every state, some requests get all that a 60-second interval can allow: what is left of the running minute and, if that began earlier, a whole further minute |
| `RateLimiting.WithinRateIff` | internal/api/middleware.go:41-66 | Whatever is requested, an interval allows no more than the rate, if and only if no tokens are left at its start from a minute that began before it and is not over |
| `RateLimiting.TwiceTheRateIsReached` | internal/api/middleware.go:41-66 | For every rate some run of a new limiter allows 2 * rate - 1 requests within 60 seconds |
| `RateLimiting.TokensAreSpent` | internal/api/middleware.go:55-65 | A bucket allows exactly as many requests as it has tokens and then none before its minute is over |
| `RateLimiting.MinuteIsMeasuredFromReset` | internal/api/middleware.go:41-66 | A minute lasts 60 seconds from the reset, inclusive; until then a second request is allowed exactly if the rate is above one |
| `RateLimiting.ClientsAreIndependent` | internal/api/middleware.go:41-66 | How many requests of a client an interval allows does not depend on the requests of other clients |
| `RateLimiting.CleanupForgets` | internal/api/middleware.go:68-80 | After a cleanup only clients with a request in the last two minutes are remembered |
| `Fqan.ValidNameChars` | internal/zns/validate.go:28-63 | Valid handles and agent names are non-empty and free of '/', '@' and '#' |
| `Fqan.ValidNameIff` | internal/zns/validate.go:49-63 | An agent name is valid exactly if it has 3 to 40 characters, the first a lower-case letter, each a lower-case letter, a digit or a single hyphen between two of them |
| `Fqan.ValidHandleIff` | internal/zns/validate.go:28-45 | A handle is valid exactly if it is a valid name and none of the eight reserved words |
| `Fqan.ParseUndoesPrint` | internal/zns/validate.go:66-143 | Parsing inverts printing for all valid parts, with or without scheme and with any qualifiers, which are recovered exactly |
| `Fqan.ParseUndoesPrintIff` | internal/zns/validate.go:66-99 | A printed name parses back to its parts exactly when handle and agent name are valid and the host is non-empty and free of '/', '@' and '#' |
| `Fqan.PrintInjective` | internal/zns/validate.go:66-68 | Different valid parts print differently |
| `Fqan.PrintUndoesParse` | internal/zns/validate.go:72-99 | Whatever parses is, after its scheme, printed from the parts it gives with the qualifiers it gives appended, and those parts are valid |
| `Fqan.QualifiersUndoParse` | internal/zns/validate.go:103-138 | Whatever parses as a qualified name is, after its scheme, its base with version and capability appended |
| `Fqan.ParseUndoesQualifiers` | internal/zns/validate.go:103-138 | Version and capability appended to a plain name are recovered exactly |

## Left out

- Sockets, TLS, JSON encoding, HTTP handlers, WebSockets, the command line and configuration loading.
- Ed25519, SHA-256, AES-GCM and FNV: signatures are a parameter, or ideal where a theorem says so; the
  hash functions of the Bloom filter are arbitrary.
- The correlation of DHT requests and replies in the transport: a lookup may get any reply, and in the
  network model a reply is kept with the request it answers, so the collision of two random request
  identifiers is not modelled. The exchange of federated search requests is left out too.
- Gossip.GossipHandler.HandleAnnouncement: is one atomic step. The code checks and marks under separate locks;
  `GossipInterleaved.dfy` splits it there. The reading and writing of rows after the mark stay one step.
- The gossip tables of developers, names, registry proofs and attestations: the model keeps their
  deduplication keys and their forwarding but not their rows. Columns that no check reads (developer key
  and proof, pricing) are not modelled.
- Full-text matching in the gossip search: any predicate on rows; only the tombstone filter is modelled.
- Locks, apart from the interleaving models of `AddNode`, of gossip receipts and of the cache; `Clear` takes
  no part in the cache interleavings.
- Rounding: floating-point numbers are real numbers and the logarithm is any function positive above 1,
  strictly increasing where the order of scores is stated. In-place sorting by the standard library is
  represented by its promised outcome, a sorted permutation.
- Tokenizing in the keyword indexes (splitting, stemming, stop words, synonyms) and lower-casing: arbitrary
  functions, which cut at spaces where `Keyword.FoundByItsWords` says so. The keyword index methods compute
  the new field values and assign them together, since every caller holds the write lock throughout. The
  slice of tags is a value, so a caller that changes it after indexing is not modelled.
- Sizing of the Bloom filter from a false-positive rate, and `Clear` of the filter: the size is a parameter.
- Embedders, vector search, ranking, pagination, trust scores, the rest of the Postgres store, Redis: thin
  wrappers, floating-point detail or easier than what is here.
