# A verified model of a file-sharing peer

A peer of the file-sharing network keeps three things: a growing graph of the overlay network with a
router and a route cache on top, a store of file chunks with Merkle root hashes, and a Bloom filter
that indexes the store.  This project models those parts in Dafny and proves what they promise
together, over every input and every run.  `dafny verify dfyconfig.toml` checks all of it.

How it is laid out:

- `GoTypes`, `Keys`: Go's fixed-width integers with their wrap-around, byte strings, and the string
  keys of the Go maps, each shown to determine what it was made from.
- `Graphs`, `Search`, `SearchProofs`, `ShortestPaths`, `Limits`: walks, the shortest-path search as a
  transition system in which any of several equally near nodes may be settled first, what every run
  of it guarantees, and exactly when it goes wrong.
- `Dijkstra`, `Network`, `RouteCache`, `Router`: the loops and the classes that the router, the
  network graph and the cache consist of, proved against the transition system.
- `RouterRuns`: a state machine in which each locked section is one step, with several route
  calculations under way at once, and what holds of every cache hit in every run of it.
  `RouterCalls` shows that one call on its own is a stretch of such a run, and the other way round,
  and what a call answers.
- `Bottlenecks`: the pass over the edges that finds slow peers.
- `Merkle`, `Chunks`, `ChunkProofs`: the level-by-level tree against the recursive one, binding of
  roots, and splitting, receiving and assembling files.
- `RootLimits`: for which lists and files a root hash is enough, and for which it is not.
- `Bloom`, `BloomProofs`, `MergeLimits`: bits against sets of positions, runs of additions and
  merges, and exactly when a merge of filters with different numbers of hashes keeps every key.
- `Manager`, `PeerRuns`: the index against the store, and transfers between peers, one whole
  operation after the other.
- `StorageRuns`: a state machine of one peer's storage in which each locked section is one step, and
  what is left of those results when the sections of several operations are interleaved.
- `SwarmRuns`: a state machine of any number of peers that pass the chunks of one file around while
  they do other things, with messages that are late, lost or repeated.

Four choices need a word.

- Every int64 and int32 sum is written with its wrap-around.  `Dijkstra.FindPath` therefore has no
  precondition: it ends on every input, and `SearchProofs.PathSound` holds for negative and
  overflowing latencies.  Where a result needs more, the condition is named: `Tame` (no negative
  latency, and every walk from the source that repeats no node costs less than the "unreached"
  distance, as it does when all latencies together do) and no node with the ID -1.  `Limits` shows
  that over a node list the search is right for all tame edges exactly when no node has that ID, that
  over one without it a bound on those walks or on the sum of all latencies makes the search right
  exactly when it is below the "unreached" distance, that a lower bound on latencies does so exactly
  when it is not negative, even of graphs without cycles, and that two hops are searched correctly
  exactly when they sum to less than "unreached".
- The chunk hash and the two FNV hashes are arbitrary functions.  What depends on a hash being hard
  to collide is stated as "equal, or these two inputs collide", where the two inputs are ones that
  the trees or stores in question hashed, never as the mere existence of a collision.
- Disk writes succeed or fail as an input says; a read of a chunk that is not in memory gives what
  an input says; clock readings are inputs that do not go back.
- Where the code differs from its comments, the model follows the code.
  - `Merge` says that both filters must have the same number of hashes but compares only the number
    of bits.  `MergeLimits.MergeKeepsOther` says when every key of the other filter survives: when
    the receiver uses no more hashes, or the other so many that more would reach nothing new (as
    many as there are bits if that is a power of two, for any other size billions).
    A filter with the same number of bits in fewer bytes makes it panic half-way.
  - The tree is said to let one root hash verify the whole file, but without its prefixes and without
    the number of chunks it does not: every file of more than one chunk shares its root with a file of
    128 bytes (`RootLimits.TwinFile`).  `RootLimits.RootIdentifiesFile` says what a root does verify.
  - Dropping the routes "involving" a peer does not drop a route to the node -1, whose path is empty
    (`RouterRuns.DropRemovesStored`, `RouterRuns.SentinelIsStored`).
  - `FindBottlenecks` speaks of peers whose average exceeds the threshold, but truncates the average:
    one above it by less than a unit is not flagged (`Bottlenecks.FlagMissesFractions`).
  - `Get` still serves a route at the very moment it expires, when `Entries`, which lists what is "not
    expired", leaves it out (`RouteCaching.ListedOneTickLess`).
  - `HasChunk` calls the store's answer the ground truth, but a stored chunk whose write failed may go
    unconfirmed (`PeerRuns.ConfirmedExactly`, `PeerRuns.ConfirmedWhenBroughtWell`).

## Model

| member | source | states |
|---|---|---|
| `Keys.CacheKeyInjective` | internal/routing/types.go:164-166 | A cache key determines its pair of peers, over all int32 IDs including negative ones. |
| `Keys.EdgeKeyInjective` | internal/peer/peer.go:68 | So does an edge key, though its separator is also the minus sign. |
| `Keys.ChunkStoreKeyInjective` | internal/storage/chunk.go:194-196 | A chunk's store key determines file ID and index, even when file IDs hold colons. |
| `Keys.BloomKeyInjective` | internal/storage/bloom.go:194-198 | So does its four-byte filter key. |
| `Keys.KeyFormats` | internal/storage/bloom.go:194-198 | How the four keys are spelled, down to the order of the index bytes, which peers that exchange filters must share. |
| `Dijkstra.BuildAdjacency` | internal/routing/dijkstra.go:72-75 | The adjacency map gives, for every node, its out-edges in list order. |
| `Dijkstra.InitMaps` | internal/routing/dijkstra.go:78-87 | Every listed node starts unreached, without predecessor and unvisited, and no other is known. |
| `Dijkstra.FindNearest` | internal/routing/dijkstra.go:102-110 | In any iteration order the scan ends with a node of least distance, or with the sentinel when nothing is reached. |
| `Dijkstra.RelaxEdges` | internal/routing/dijkstra.go:124-133 | The loop over out-edges is the relaxation of the transition system, wrap-around included. |
| `Dijkstra.Settling` | internal/routing/dijkstra.go:100-134 | The main loop ends by a break, in a final state of some run, with the target still unvisited. |
| `Dijkstra.WalkBack` | internal/routing/dijkstra.go:141-147 | The backward walk ends and collects exactly the path the links spell out. |
| `Dijkstra.BackWalkEnds` | internal/routing/dijkstra.go:144-147 | Whenever the target was reached, its chain of links ends at the sentinel: the walk cannot loop. |
| `Dijkstra.FindPath` | internal/routing/dijkstra.go:67-150 | Every call, with no precondition, ends with the answer of some run of the search, errors included. |
| `SearchProofs.RelaxAllAt` | internal/routing/dijkstra.go:124-133 | Relaxing edges leaves a node alone or strictly improves an unvisited one along one of the edges. |
| `SearchProofs.RelaxAllCovers` | internal/routing/dijkstra.go:124-133 | No edge to an unvisited node is overlooked. |
| `SearchProofs.RunRooted` | internal/routing/dijkstra.go:100-134 | In every reachable state each reached node hangs on a walk from the source through settled nodes without repeats, and the target is unvisited. |
| `SearchProofs.BackPathUnique` | internal/routing/dijkstra.go:142-147 | The links of a node spell out one path only. |
| `SearchProofs.PathSound` | internal/routing/dijkstra.go:121-149 | For any latencies and any target but -1, a returned path is a simple path of the snapshot no longer than its node count, and the latency is its wrapped sum. |
| `ShortestPaths.NoOverflow` | internal/routing/dijkstra.go:128 | With tame edges no relaxation of a reachable state overflows. |
| `ShortestPaths.RunMetric` | internal/routing/dijkstra.go:100-134 | In tame runs settled nodes are nearer than unvisited ones and no edge out of a settled node is slack. |
| `ShortestPaths.WalkBound` | internal/routing/dijkstra.go:112-119 | A walk costs at least the distance of its settled end, or of some unvisited node: why stopping early is safe. |
| `ShortestPaths.SearchCorrect` | internal/routing/dijkstra.go:89-149 | When no latency is negative, every walk from the source without repeats costs less than MaxInt64 and no node is -1, every answer is right: the least cost over all walks through listed nodes with a path that attains it, no-path exactly when there is no walk, missing ends reported. |
| `ShortestPaths.TotalTames` | internal/routing/dijkstra.go:128 | Latencies that are not negative and sum to less than MaxInt64 are tame, whatever the source. |
| `ShortestPaths.OrderIrrelevant` | internal/routing/dijkstra.go:105-110 | Over one tame graph neither the listing order nor the choice among ties changes the latency or whether there is a path. |
| `Limits.SentinelExact` | internal/routing/dijkstra.go:102-144 | Over a node list the search is right for all tame edges exactly when no node is called -1. |
| `Limits.OverflowExact` | internal/routing/dijkstra.go:128-131 | Over any node list without -1 and any two of its nodes, the search is right for all edges whose walks without repeats cost at most a bound exactly when the bound is below MaxInt64, and likewise for a bound on the sum of all latencies. |
| `Limits.TwoHopsExact` | internal/routing/dijkstra.go:128-131 | For one graph of two hops the search is right exactly when the latencies sum to less than MaxInt64. |
| `Limits.NegativeExact` | internal/routing/dijkstra.go:102-131 | Over any node list without -1 and any two of its nodes, the search is right for all edges of at least some latency, up to the limit on overflow, exactly when that latency is not negative. |
| `Limits.NegativeExactAcyclic` | internal/routing/dijkstra.go:102-131 | With a third node the same holds of graphs in which no walk comes back to its start. |
| `Network.EdgesByPair` | internal/peer/peer.go:65-74 | Adding an edge replaces the edge between the same two nodes in that direction, and touches no other edge and no node. |
| `Network.NodesById` | internal/peer/peer.go:54-62 | Adding a node adds or renews the node of that ID with the given address and time, and touches no other node and no edge. |
| `Network.SnapshotGraph` | internal/peer/peer.go:99-126 | Two snapshots, even of different moments, hold exactly the nodes of the one and the edges of the other. |
| `Network.NetworkGraph.AddNode` | internal/peer/peer.go:54-62 | The node map gains or overwrites the one entry, and stays filed by ID. |
| `Network.NetworkGraph.AddEdge` | internal/peer/peer.go:65-74 | The edge map gains or overwrites the one entry, and stays filed by pair. |
| `Network.NetworkGraph.GetNodeList` | internal/peer/peer.go:99-111 | Every node is listed, once, in arbitrary order. |
| `Network.NetworkGraph.GetEdgeList` | internal/peer/peer.go:114-126 | Every edge is listed, once, in arbitrary order. |
| `RouteCaching.CacheByPair` | internal/routing/types.go:77-104 | A stored route is served for its pair up to and including its expiry, and changes nothing for any other pair. |
| `RouteCaching.ServedForPair` | internal/routing/types.go:89-104 | A served route is between the pair asked for. |
| `RouteCaching.ListedOneTickLess` | internal/routing/types.go:99-151 | The listing drops a route exactly one tick before lookups do. |
| `RouteCaching.RouteCache.Set` | internal/routing/types.go:77-86 | Stores the route under its pair with its expiry. |
| `RouteCaching.RouteCache.Get` | internal/routing/types.go:89-104 | Serves the unexpired route of the pair, or nothing. |
| `RouteCaching.RouteCache.Invalidate` | internal/routing/types.go:107-113 | Empties the cache and counts what was in it. |
| `RouteCaching.RouteCache.InvalidatePeer` | internal/routing/types.go:116-134 | Removes exactly the routes whose path holds the peer; the count is the drop in size. |
| `RouteCaching.RouteCache.KeysThrough` | internal/routing/types.go:120-128 | The keys collected are those of the routes through the peer, each once. |
| `RouteCaching.RouteCache.Size` | internal/routing/types.go:137-141 | The number of entries, expired ones included. |
| `RouteCaching.RouteCache.Entries` | internal/routing/types.go:144-156 | Each route still served a tick later is listed once, and no other. |
| `Router.DijkstraRouter.CalculateRoute` | internal/routing/dijkstra.go:24-63 | A call returns and leaves in the cache what `Calculated` says: the trivial route for equal ends; the cached route on a hit; on a miss the outcome of a search over snapshots, cached only on success. |
| `Router.PathHoldsEnds` | internal/routing/dijkstra.go:142-147 | A found path holds both its ends, except that the path to -1 is empty. |
| `Router.HopsCountLinks` | internal/routing/dijkstra.go:54 | Hops is the number of links and below the node count, while the node count fits an int32. |
| `Router.ServedForAnHour` | internal/routing/dijkstra.go:16-21 | A router's cache serves a route for 3600 * 10^9 ns after it was stored, and no longer. |
| `RouterRuns.AlwaysFiled` | internal/routing/types.go:77-134 | In every state of every run, nodes, edges and routes are filed under their own keys. |
| `RouterRuns.NetworkGrows` | internal/peer/peer.go:54-74 | Nodes and links are never removed. |
| `RouterRuns.AltersExactly` | internal/peer/peer.go:54-74 | A step changes the graph exactly when it adds an unknown node, or an edge that is not there at that latency. |
| `RouterRuns.EntryStored` | internal/routing/types.go:77-134 | Whatever the cache holds was stored by an earlier step and not evicted since. |
| `RouterRuns.StoredCameFrom` | internal/routing/dijkstra.go:43-58 | A stored route is the outcome of a search over nodes read at one step and edges read at a later one. |
| `RouterRuns.HitOrigin` | internal/routing/dijkstra.go:36-41 | A hit serves a route for the pair asked, found by a search, stored at most the time-to-live before and not evicted since. |
| `RouterRuns.RouteStaysPath` | internal/routing/dijkstra.go:68-69 | Whatever is added between or after the two reads, a stored route is a path of the network at the later read and ever after. |
| `RouterRuns.RouteCorrect` | internal/routing/dijkstra.go:68-149 | A stored route is the cheapest for its pair of snapshots, torn or not. |
| `RouterRuns.RouteStaysOptimal` | internal/routing/dijkstra.go:36-58 | It is the cheapest in the network as long as nothing is added that was not there: known nodes and unchanged edges may be added again. |
| `RouterRuns.HitIsPresentPath` | internal/routing/dijkstra.go:37-41 | Every route served from the cache is a path of the present graph. |
| `RouterRuns.DroppedPeerMisses` | internal/routing/dijkstra.go:163-165 | After a peer's routes are dropped, a hit to or from it implies that such a route was stored in between. |
| `RouterRuns.DropRemovesStored` | internal/routing/types.go:116-134 | Dropping either end of a stored route removes it exactly when it does not lead to -1. |
| `RouterRuns.SentinelRouteStays` | internal/routing/types.go:116-134 | No drop of any peer ever removes a stored route to -1. |
| `RouterRuns.SentinelIsStored` | internal/routing/dijkstra.go:54-58 | A run that stores a route to -1, with an empty path. |
| `RouterRuns.RefusalWasTrue` | internal/routing/dijkstra.go:43-50 | A calculation that gives up reports its own source or target missing exactly when it was when the nodes were read, and no path otherwise; then, over tame snapshots, torn or not, the network had no path between the two. |
| `RouterCalls.CallIsStretch` | internal/routing/dijkstra.go:24-63 | After any run, whatever an uninterrupted call between two peers may return and cache is what one step that serves just that route from the cache, or a miss, two reads and a final step, lead to. |
| `RouterCalls.StretchIsCall` | internal/routing/dijkstra.go:24-63 | Conversely, four such steps in a row return and cache what a call may, and change neither the network nor other calculations. |
| `RouterCalls.HitIsCall` | internal/routing/dijkstra.go:36-41 | And so does a step that hits. |
| `RouterCalls.CallAnswers` | internal/routing/dijkstra.go:24-63 | After any run a call answers, from the cache or not, with a route between the peers asked for whose path is one of the present graph and whose hops are its links; a call to the peer itself with the path of that one peer, at a cost of 0, the least if no latency is negative. |
| `RouterCalls.MissAnswers` | internal/routing/dijkstra.go:43-60 | After a miss the route is of this moment, a missing end is reported exactly when it is missing, and over a tame network the latency is the least, or no path means that there is none. |
| `RouterCalls.CallAgain` | internal/routing/dijkstra.go:36-58 | What a call found and stored is what the next call for that pair answers, over whatever network, up to the time-to-live after it was stored, and that call leaves the cache alone. |
| `RouterCalls.CallKeepsOthers` | internal/routing/dijkstra.go:57-58 | A call never changes what is found in the cache for another pair. |
| `Bottlenecks.Accumulate` | internal/routing/graph.go:72-80 | The two maps hold, for every end of an edge, its wrapped degree and latency sums, loops counted twice. |
| `Bottlenecks.FindBottlenecks` | internal/routing/graph.go:68-94 | Lists each flagged peer once and no other, in arbitrary order. |
| `Bottlenecks.FlaggedMeans` | internal/routing/graph.go:84-90 | By the sums that int64 and int32 leave, which are the true ones as long as these fit, flagged means edges that take at least a whole unit above the threshold each, said without division. |
| `Bottlenecks.FlagMissesFractions` | internal/routing/graph.go:67-88 | No flag is raised wrongly, and one is missing exactly for a non-negative average above the threshold by less than a unit. |
| `Bottlenecks.FractionIsMissed` | internal/routing/graph.go:67-88 | Two edges of 1 and 2 at a peer exceed a threshold of 1 on average, and it is not flagged. |
| `Bottlenecks.SumsBound` | internal/routing/graph.go:75-80 | A bound on all edges bounds every peer's sums. |
| `Bottlenecks.SumsConserved` | internal/routing/graph.go:75-80 | Degrees add up to twice the edges, incident latencies to twice their total. |
| `Merkle.SplitPoint` | internal/storage/hash.go:44-62 | The place where the recursive tree splits is the largest power of two below the count. |
| `Merkle.NextLevelKeepsSplit` | internal/storage/hash.go:44-62 | Joining neighbours and promoting an odd one leaves the recursive tree unchanged. |
| `Merkle.BuildLevel` | internal/storage/hash.go:45-59 | The inner loop builds the next level. |
| `Merkle.BuildMerkleTree` | internal/storage/hash.go:34-65 | The loop over levels ends and builds exactly the recursive tree; nothing for the empty list. |
| `Merkle.TreeShape` | internal/storage/hash.go:34-65 | Leaves are in order, internal nodes are one fewer than leaves, every joined node carries the hash of its children. |
| `Merkle.TreeHeight` | internal/storage/hash.go:44-62 | The height is the least exponent whose power of two covers the leaves. |
| `Merkle.RootHash` | internal/storage/hash.go:68-74 | The root of the recursive tree, empty for the empty list. |
| `Merkle.VerifyFileIntegrity` | internal/storage/hash.go:77-79 | Accepts exactly the hash lists with the expected root. |
| `Merkle.TreeBinds` | internal/storage/hash.go:44-62 | Honest trees of one shape with one root are equal, or collide in inputs they hashed. |
| `Merkle.RootBinds` | internal/storage/hash.go:68-79 | Two digest lists of one length with one root are equal, or their trees collide. |
| `Merkle.AnyTreesBind` | internal/storage/hash.go:44-62 | Honest trees of any two shapes with one root are equal, collide, or one shows as a leaf the digest of what the other hashed. |
| `Merkle.RootBindsAnyLength` | internal/storage/hash.go:68-79 | Two digest lists of any lengths with one root are equal, or their trees collide, or an entry of one is the digest of an input that the tree of the other hashed. |
| `Chunks.ChunkCount` | internal/storage/chunk.go:58-59 | The int32 count never exceeds the chunks needed and equals it exactly when that fits. |
| `Chunks.Persisted` | internal/storage/chunk.go:89-91 | How many writes succeed before the first that fails. |
| `Chunks.ChunkStore.SplitFile` | internal/storage/chunk.go:54-106 | Store and result after a split: all chunks and metadata, the chunks up to a failed write, or a panic on a negative capacity. |
| `Chunks.ChunkStore.HasChunk` | internal/storage/chunk.go:120-127 | Whether the chunk is in memory. |
| `Chunks.ChunkStore.GetChunk` | internal/storage/chunk.go:130-148 | The chunk in memory, else what the disk gives. |
| `Chunks.ChunkStore.StoreDownloadedChunk` | internal/storage/chunk.go:151-162 | Stores exactly data with the expected hash, also when writing it to disk then fails. |
| `Chunks.ChunkStore.AssembleFile` | internal/storage/chunk.go:173-189 | The chunks in order, the first missing one, or an unknown file. |
| `ChunkProofs.ChunkBounds` | internal/storage/chunk.go:64-71 | All chunks but the last are full, none is empty, each starts where the one before ends, the last ends with the file. |
| `ChunkProofs.ChunkSizes` | internal/storage/chunk.go:11 | A chunk holds 262144 bytes: one byte more needs a second. |
| `ChunkProofs.SplitReturns` | internal/storage/chunk.go:74-105 | As many chunks as the int32 count says, numbered in order with their own sizes and digests, and metadata with name, size, counts and the root of those digests; the sizes add up to the file's if the count fits. |
| `ChunkProofs.ChunksStored` | internal/storage/chunk.go:85-87 | Storing a file's chunks changes no other entry, even of file IDs with colons. |
| `ChunkProofs.SplitThenAssemble` | internal/storage/chunk.go:54-189 | Whatever the store held before, a split file assembles to the same bytes exactly when its chunk count fits an int32. |
| `ChunkProofs.AssembleEnds` | internal/storage/chunk.go:173-189 | A file is unknown exactly when there is no metadata of it, assembled exactly when there is and every chunk is found, and else the first chunk that is not found is reported. |
| `ChunkProofs.DiskIsEnough` | internal/storage/chunk.go:130-148 | Chunks on disk are found by a store that lost any part of its memory, and make up the file as long as its metadata, which is in memory only, is left. |
| `ChunkProofs.DownloadVerdict` | internal/storage/chunk.go:151-162 | Refused exactly for a wrong digest, with nothing changed; else stored, a failed write being the only other error; no other chunk or file is touched. |
| `ChunkProofs.RunVouched` | internal/storage/chunk.go:151-162 | Through any respecting run every stored chunk of the file keeps the digest of the original. |
| `ChunkProofs.StoreIntegrity` | internal/storage/chunk.go:94-188 | After a split and any such run the file assembles to the original bytes, or a stored chunk collides with an original. |
| `ChunkProofs.TornAssembly` | internal/storage/chunk.go:173-189 | The same when respecting operations go on between the separately locked reads of one assembly: the original bytes, or a chunk that was forged when it was read. |
| `RootLimits.SharedRoot` | internal/storage/hash.go:44-74 | Under any hash there are digest lists of any two positive lengths with one root. |
| `RootLimits.LengthsExact` | internal/storage/hash.go:68-79 | A root tells all digest lists of two lengths apart, up to collisions between their trees, exactly when the lengths are equal or one is zero. |
| `RootLimits.NoCollisionNeeded` | internal/storage/hash.go:44-74 | Lists of any two positive lengths can share a root with no collision between their trees. |
| `RootLimits.LengthsMatter` | internal/storage/hash.go:49 | Two entries share their root with their one joined digest, and with other entries of the same bytes when entries need not be digests. |
| `RootLimits.TwinFile` | internal/storage/hash.go:32-65 | Any file of more than one chunk shares its root with another, of 128 bytes: the two digests joined at the top of its tree. |
| `RootLimits.RootIdentifiesFile` | internal/storage/chunk.go:94-101 | Two files of any sizes with one root are equal, or two different inputs of theirs collide, or a chunk of one is two digests joined by the other's tree; the last case falls away when chunk counts are equal or no last chunk has 128 bytes. |
| `Bloom.CombinedHashIs` | internal/storage/bloom.go:96-98 | The uint32 arithmetic is h1 + i*h2 modulo 2^32. |
| `Bloom.BitSetAfterSet` | internal/storage/bloom.go:100-110 | Setting one bit of one byte adds one position and no other. |
| `Bloom.BloomFilter.constructor` | internal/storage/bloom.go:27-31 | A new filter has no bit set, and is usable unless its size is a multiple of 2^32. |
| `Bloom.BloomFilter.SetBit` | internal/storage/bloom.go:100-104 | Adds the position. |
| `Bloom.BloomFilter.GetBit` | internal/storage/bloom.go:106-110 | Tells whether the position is set. |
| `Bloom.BloomFilter.Add` | internal/storage/bloom.go:51-61 | Adds exactly the positions of the key and counts one item. |
| `Bloom.BloomFilter.MightContain` | internal/storage/bloom.go:66-78 | Says maybe exactly when every position of the key is set. |
| `Bloom.BloomFilter.Merge` | internal/storage/bloom.go:150-164 | Refused exactly for different sizes, with nothing changed; else the bits are the union as far as the receiver's bytes go, with a panic exactly when the other filter has fewer bytes. |
| `Bloom.BloomFilter.Serialize` | internal/storage/bloom.go:128-136 | A detached copy of the bits with the parameters cut to int32, whatever the filter. |
| `Bloom.SendAndReceive` | internal/storage/bloom.go:128-146 | A filter sent and received has the same bits and, if its number of hashes fits an int32, answers alike, even with a size that does not fit; such a size alone is no longer the same number. |
| `BloomProofs.AddsExact` | internal/storage/bloom.go:51-98 | After any additions to an empty filter, a bit is set exactly when it is one of the first k double hashes of an added key. |
| `BloomProofs.AddOrderIrrelevant` | internal/storage/bloom.go:51-61 | Only the set of added keys matters. |
| `BloomProofs.NeverForgets` | internal/storage/bloom.go:51-164 | No run of additions and merges clears a bit, so maybe stays maybe. |
| `BloomProofs.NoFalseNegatives` | internal/storage/bloom.go:63-78 | A key added anywhere in any run is found ever after. |
| `BloomProofs.MergeIsUnion` | internal/storage/bloom.go:148-164 | Merging filters of one configuration gives the filter of both key lists. |
| `MergeLimits.MergeKeepsOther` | internal/storage/bloom.go:148-164 | Merging filters built from any keys with any hashes keeps every key of the other one exactly when the receiver uses no more hashes or none, or the other uses enough. |
| `MergeLimits.EnoughIs` | internal/storage/bloom.go:96-98 | Enough is the number of bits if that is a power of two, and at least 2^31 otherwise. |
| `Manager.StorageManager.UploadFile` | internal/storage/manager.go:36-53 | Store, filter and result after an upload: indexed only if every write succeeded, and a panic on slicing a short root hash. |
| `Manager.StorageManager.AddKeys` | internal/storage/manager.go:44-47 | The loop over chunks adds the keys of all of them. |
| `Manager.StorageManager.MightHaveChunk` | internal/storage/manager.go:56-59 | The filter's answer for the chunk's key. |
| `Manager.StorageManager.ConfirmHasChunk` | internal/storage/manager.go:62-64 | The store's answer. |
| `Manager.StorageManager.DownloadChunk` | internal/storage/manager.go:67-75 | The chunk with its own hash, or nothing. |
| `Manager.StorageManager.ReceiveChunk` | internal/storage/manager.go:78-88 | Store, filter and result after a receipt: indexed only if verified and written. |
| `Manager.StorageManager.HasChunk` | internal/network/grpc_server.go:115-127 | Confirmed means that filter and store both say so; in particular the store has the chunk. |
| `PeerRuns.DoHolds` | internal/storage/manager.go:36-88 | An operation adds to the store exactly the chunks it brings and removes none. |
| `PeerRuns.HeldWasBrought` | internal/storage/manager.go:36-88 | After any run from empty the store holds exactly what some operation brought. |
| `PeerRuns.WellBroughtIsConfirmed` | internal/network/grpc_server.go:115-122 | In any run, failed writes included, a chunk that once came in without one is confirmed ever after. |
| `PeerRuns.IndexAgreesWithStore` | internal/network/grpc_server.go:115-127 | In runs without failed writes, confirmed is the ground truth for every chunk. |
| `PeerRuns.FailedWriteHidesChunk` | internal/storage/chunk.go:156-161 | A received chunk whose write failed is stored, and confirmed exactly when the filter already said maybe, which an empty one does not. |
| `PeerRuns.FailedUploadHidesChunks` | internal/storage/manager.go:39-47 | An upload with a failed write leaves every chunk up to that one in the store and indexes none: each is confirmed exactly when the filter already said maybe. |
| `PeerRuns.BitsExact` | internal/storage/manager.go:36-88 | After any run from empty, a filter bit is set exactly when it is a position of a chunk that came in without a failed write. |
| `PeerRuns.ConfirmedExactly` | internal/network/grpc_server.go:115-127 | After any run from empty, failed writes included, a chunk is confirmed exactly when it was brought and each of its positions is one of a chunk that came in without a failed write. |
| `PeerRuns.ConfirmedWhenBroughtWell` | internal/network/grpc_server.go:115-127 | With at least two bits and a hash, a chunk is confirmed whatever the hash functions exactly when some operation brought it without a failed write. |
| `PeerRuns.UploadPanicsWhen` | internal/storage/manager.go:49-50 | With 64-character digests an upload panics exactly when the chunk count is not positive, as for the empty file. |
| `PeerRuns.UploadAnswer` | internal/storage/manager.go:36-53 | A non-empty upload whose count fits fails exactly when a write fails and succeeds otherwise, with metadata that names the file and lists the digest of each chunk, that the store keeps, and from which the file is assembled. |
| `PeerRuns.UploadErrors` | internal/storage/manager.go:36-53 | The exact condition of each error; an upload that did not write all chunks changes neither metadata nor filter, and every chunk it did not bring, like every other file, is as before. |
| `PeerRuns.ReceiveAnswer` | internal/storage/manager.go:78-88 | Accepted exactly when the digest matches and the write succeeds, a mismatch reported exactly when it does not match, with the peer unchanged; accepted data is found and the filter says maybe. |
| `PeerRuns.UploadIsIntact` | internal/storage/manager.go:36-53 | A successful upload leaves every chunk of the data in the store. |
| `PeerRuns.OfferPassesCheck` | internal/storage/manager.go:67-88 | What a sender offers passes the receiver's check and is confirmed by the receiver from then on. |
| `PeerRuns.TransferWhole` | internal/storage/manager.go:67-88 | A receiver that takes every chunk of an intact upload, in any order and with repeats, holds the data and confirms each chunk. |
| `PeerRuns.CheckedTransferWhole` | internal/storage/chunk.go:151-162 | Whoever sends, a receiver that checks against the uploader's digests and ends with every chunk holds the data, or a chunk that collides with an original. |
| `SwarmRuns.Swarm.RunVouches` | internal/storage/manager.go:36-88 | In every run of any number of peers, all that any of them holds of the file or has sent has the digest of the original chunk. |
| `SwarmRuns.Swarm.ReachedStays` | internal/storage/manager.go:78-88 | A chunk that reached a peer is in its store ever after, and confirmed ever after if it was once written well. |
| `SwarmRuns.Swarm.SwarmDelivers` | internal/storage/manager.go:67-88 | A peer that every chunk reached, through whatever peers, in any order, with repeats, other work and failed writes in between, holds the file or a chunk that collides with an original. |
| `SwarmRuns.Swarm.UploadStarts` | internal/storage/manager.go:36-53 | An upload among peers new to the file starts such a run, even if its writes fail. |
| `StorageRuns.HeldWasStored` | internal/storage/chunk.go:54-162 | However sections are interleaved, the store holds exactly what some of them stored. |
| `StorageRuns.OwedOrIndexed` | internal/storage/manager.go:36-88 | In every state a chunk stored without a failed write is in the filter, or some operation still has to add it. |
| `StorageRuns.SettledIsSequential` | internal/storage/manager.go:36-88 | Once no operation has a chunk left to add, store and filter are as if the operations had been carried out whole, one after the other. |
| `StorageRuns.TornAnswerIsBetween` | internal/network/grpc_server.go:115-127 | With other steps between its two reads, the answer is yes for a chunk stored well and added before the first; a yes means that the chunk is in the store at the second and ever after. |

## Left out

- Latencies below zero: `ShortestPaths.SearchCorrect` assumes none, and `Limits.NegativeExact` shows that none can be allowed; `SearchProofs.PathSound` needs no such assumption.
- SearchCorrect: assumes that every walk from the source without repeats costs less than MaxInt64; no larger bound would do for all graphs, but a single graph may be searched correctly without it.
- Size estimates, false-positive rates and network density: floating-point code; the numbers of bits and hashes are inputs.
- SHA-256 and FNV: arbitrary functions, with 64-character digests where a result needs them.
- The file system: writes succeed or fail by an input, reads of chunks not in memory give what an input says; a restart is modelled only as a loss of memory in `ChunkProofs.DiskIsEnough`.
- Durations: expiry times are unbounded integers, so the saturation of `time.Add` is not modelled.
- File sizes within 256 KiB of the largest int64, where rounding up to whole chunks would overflow.
- Slice aliasing: uploaded and received bytes are values, so a caller who changes its buffer afterwards is not modelled.
- AssembleFile: the method runs in one state; its separately locked reads are the subject of `ChunkProofs.TornAssembly`.
- UploadFile: the method is one step; its store section and its additions to the filter are separate steps in `StorageRuns`.
- ReceiveChunk: likewise one step here and two in `StorageRuns`.
- HasChunk: the method reads filter and store in one state; `StorageRuns.TornAnswerIsBetween` is about two.
- TransferWhole: one sender that stands still and a receiver that does nothing else; `SwarmRuns` is about peers that go on with other work.
- SwarmRuns: messages are not altered on the way, and what a peer offers from disk has the digest it was written with; `PeerRuns.CheckedTransferWhole` is about receiving anything at all.
- Merge: a filter merged with itself, which would wait for its own lock, is excluded, and locking order is not modelled.
- File ID generation: an upload's ID is an input.
- `AnalyzeNetwork` and the metrics text: single-pass sums and minima with no property beyond their bodies.
- Generated protocol code, connections, pings, the bootstrap server, the remaining RPC handlers and logging: plumbing.
