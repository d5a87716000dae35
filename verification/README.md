# Verified model of the Gladius masternode

The masternode proxies requests to an origin, caches the replies, and points clients to content
nodes near them. This project models, in Dafny 4.11, the parts of it that carry real invariants and
proves what they promise:

* **Nearest-neighbour index** (`src/libs/nanoflann.hpp`). The k-d tree used to find content nodes:
  in-place partitioning, tree construction, branch-and-bound search with incrementally updated bounds,
  the bounded result set, the static index, the dynamic forest of trees, and the pool the tree nodes
  come from. Main result: an index search agrees with sorting all points by distance.
  Modules `Metric`, `Ranges`, `ResultSet`, `KDTree`, `KDSearch`, `KDFacts`, `BruteForce`, `KDIndex`,
  `SingleIndex`, `BinaryCounter`, `DynamicIndex`, `Memory`, `PooledAllocator`.
* **Node state** (`src/Geo.cpp`, `src/NetworkState.cpp`). From a gateway update to the list of nodes
  nearest to a client. Modules `Geo`, `NetworkState`.
* **Wire formats** (`src/libs/httplib.h`). Line reader, chunked transfer coding (section 4.1 of
  RFC 7230), percent-encoding (section 2.1 of RFC 3986) and query text; each reader is paired with its
  writer. The check of a path before a file is served. Modules `Bytes`, `LineReader`, `Chunked`,
  `ChunkedCuts`, `Url`, `UrlFacts`, `Query`, `Path`.
* **Proxy handlers and cache** (`src/ProxyHandler.cpp`, `src/Cache.cpp`). Event-driven handlers sharing
  one insert-only cache, over all interleavings of their callbacks. Modules `Cache`, `Proxy`, `ProxyRuns`,
  `ProxyHistory`.

Loops and in-place updates of the program are methods over arrays and fields, each proved equal to a
specification function or predicate; the theorems are lemmas about those.

## How the model reads the program

* Coordinates and distances are `real`. The largest value of the distance type is a parameter `MAX`,
  required to exceed every distance that occurs (times `1 + eps`).
* The dimension, the leaf size (at least one), `k` (at least one) and the search tolerance `eps` are
  arbitrary. `eps = 0` gives exact answers, larger values answers within a factor `1 + eps`. With `k = 0`
  a search of a nonempty index reads before its arrays, and with empty leaves building does not end.
* `vind` is a sequence field of the index; building works in place on an array holding it. The trees of
  the forest are values in a vector, as in the program. The two copies of the search and of the
  bounding-box loop, for the static and the dynamic index, are one method with a liveness test that is
  constantly true for the static index; the two passes of the plane split are one method as well.
* `std::swap`, `std::min`, `std::stoi`, `std::multimap` and the system allocator are modelled by what the
  C++ standard says of them. SHA-256, the location lookup of an address and the system time are
  parameters. `Stream.Read` may return any positive number of bytes; `Sink.Write` may fail at any time.
* Sizes and addresses in the pool are computed modulo 2^64 where the program computes them in `size_t`, and
  the chain of blocks is kept in memory, in the first eight bytes of each block.
* Every callback of `Proxy.ProxyHandler` is a method proved to do just what the function `Proxy.React` says:
  the new fields, the calls made, and for a completed request the change of the cache. What is promised
  about callbacks is proved in `ProxyRuns` and `ProxyHistory`, over all runs and in terms of the callbacks alone. The methods that only assign or read
  one field (`SetTreeData`, `SetEdgeNodes`, `GetCachedRoute`) have no row of their own.
* The order in which the server library delivers callbacks is an assumption, `ProxyRuns.Allowed`: in
  particular a request completes only after a whole response has been handed over, detaching the origin
  transaction is an event of its own (`sendAbort` does not detach from within), and deleting a handler
  cancels its connector. Service worker injection is off.

## Where the program does less than its documentation says

Each of these is proved as an exact condition.

* `getNearestEdgeNodes` promises up to `n` nodes but never cuts its answer: the positions it returns are
  distinct if and only if there are at least `n` nodes, and on an empty list it raises an error
  (`NetworkState.DistinctIffEnough`).
* `removePoint` of the dynamic index is undone when the point's tree is merged
  (`DynamicIndex.MarksTellHistory`, `DynamicIndex.RemovalLasts`, `DynamicIndex.RemovedPointReturns`).
* An index set up for `maximumPointCount` points holds at most `2^floor(log2(maximumPointCount)) - 1`
  of them, unless the floating-point logarithm has been rounded up (`DynamicIndex.MaximumIsNotReached`).
* The pool keeps sizes, but not addresses, at multiples of its word size
  (`PooledAllocator.PieceAlignment`). For requests of 2^64 - 31 to 2^64 - 16 bytes the block size wraps around
  and the piece overruns its block (`PooledAllocator.BlockTooSmallIff`, `PooledAllocator.Pool.Malloc`); larger
  requests wrap around to a piece of no bytes (`PooledAllocator.RoundUpIsLeast`). A request refused while
  part of the newest block was unused makes the accounting overcount
  (`PooledAllocator.BalancedIffRefusedWhenEmpty`).
* `encode_url` does not escape `%` (`Url.UrlRoundTrip`, `UrlFacts.PercentIsNotEscaped`), and `Client::Post`
  escapes nothing (`Query.QueryRoundTrip`).
* A chunked reply cut between the carriage return and the line feed after a chunk's data is reported as
  complete, without that chunk (`ChunkedCuts.CutShort`); so is one whose chunk is followed by anything but a
  line end (`ChunkedCuts.WrongLineEnd`) and one with a negative chunk size (`ChunkedCuts.NegativeSizeEnds`).
  A reply with trailers is reported as failed (`ChunkedCuts.NoTrailers`).
* The end of an origin reply is answered only if a body has come (`ProxyRuns.ReplyIsAnsweredIff`): a GET whose
  reply has headers only (`ProxyRuns.EmptyReplyHappens`) waits until its client gives up
  (`ProxyRuns.EmptyReplyIsNeverAnswered`).

## Model

| member | source | states |
|---|---|---|
| Metric.EvalMetric | src/libs/nanoflann.hpp:432-441 | the loop over the coordinates computes the squared distance |
| ResultSet.KNNResultSet.constructor | src/libs/nanoflann.hpp:155-164 | an empty result set; only the last distance slot is set, to MAX |
| ResultSet.KNNResultSet.Store | src/libs/nanoflann.hpp:175-198 | slot by slot, the arrays after shifting further entries up and writing the new one behind its equals |
| ResultSet.KNNResultSet.AddPoint | src/libs/nanoflann.hpp:175-202 | the arrays hold the first k entries of the stable sort of everything offered so far; unused slots are untouched |
| ResultSet.KNNResultSet.WorstDist | src/libs/nanoflann.hpp:204 | the k-th smallest distance offered, or MAX while there are fewer than k |
| ResultSet.KNNResultSet.Size | src/libs/nanoflann.hpp:166 | the number of entries held: as many as were offered, at most k |
| ResultSet.KNNResultSet.Full | src/libs/nanoflann.hpp:168 | full exactly when at least k entries have been offered |
| ResultSet.StableSortIsStableSort | src/libs/nanoflann.hpp:175-202 | sorted, a permutation of the stream, and entries at one distance keep their order of arrival |
| ResultSet.OfferKeepsPrefix | src/libs/nanoflann.hpp:175-202 | what the capacity cuts off never belongs to a later result |
| KDTree.ComputeMinMax | src/libs/nanoflann.hpp:836-848 | minimum and maximum of a coordinate over a range of the index array |
| KDTree.PartitionPass | src/libs/nanoflann.hpp:971-985 | one pass separates a range in place around the cut, with an unsigned right bound that never wraps |
| KDTree.PlaneSplit | src/libs/nanoflann.hpp:967-1003 | in-place three-way partition: below, on and above the cut, a permutation that leaves the rest of the array alone |
| KDTree.ChooseCut | src/libs/nanoflann.hpp:912-941 | the first of the nearly longest sides with the widest spread; the middle of the box, clamped to the points |
| KDTree.CutInside | src/libs/nanoflann.hpp:936-955 | a clamped cut leaves points on both sides, so the split index is strictly inside even if all points coincide |
| KDTree.NearestToMiddle | src/libs/nanoflann.hpp:950-955 | the chosen index is a split of the partitioned range and none is closer to its middle |
| KDTree.MiddleSplit | src/libs/nanoflann.hpp:909-956 | cut and partition together: a strictly inner, best balanced split of a permuted range |
| KDTree.ComputeBoundingBox | src/libs/nanoflann.hpp:868-881 | the smallest box around a range of points, bounds attained in every dimension |
| KDTree.GapOpens | src/libs/nanoflann.hpp:888-900 | the exact bounds of the two halves lie on their sides of the cut, so divlow <= divhigh |
| KDTree.DivideTree | src/libs/nanoflann.hpp:857-907 | terminates; permutes only its range; leaves tile it in order, nonempty and not over-full; inner nodes record the exact gap; the box returned is tight; every inner node cuts more than leaf_max_size points at the plane the rules choose for the box handed down to it, and hands each child its part of that box |
| KDTree.CutKept | src/libs/nanoflann.hpp:909-941 | the cutting plane depends on the points of a range only through their extremes, so the finished tree can be read back as the plan that built it |
| KDFacts.CutIsCentral | src/libs/nanoflann.hpp:935-945 | of all values within the points' spread the cut is the one nearest to the middle of the box |
| KDFacts.LongSideIff | src/libs/nanoflann.hpp:912-924 | a side is a candidate exactly if no side is longer by more than a hundred-thousandth |
| KDFacts.SpreadIsWidest | src/libs/nanoflann.hpp:924-932 | the spread that decides between candidates is the largest difference of two coordinates, and attained |
| KDSearch.ComputeInitialDistances | src/libs/nanoflann.hpp:1005-1022 | per dimension the squared gap to the root box, and their sum |
| KDSearch.InitialBounds | src/libs/nanoflann.hpp:1005-1022 | those gaps bound the gaps to every indexed point |
| KDFacts.GapIsDistance | src/libs/nanoflann.hpp:1005-1022 | an initial bound is the squared distance to the nearest coordinate of the box, no less |
| KDSearch.CutBounds | src/libs/nanoflann.hpp:1370-1400 | replacing one bound by the distance to the far side of the gap bounds every point of the far child, and some point of it attains the new bound |
| KDFacts.NearerChildFirst | src/libs/nanoflann.hpp:1370-1387 | the child whose side of the gap is nearer to the query is searched first |
| KDSearch.PruneIsSound | src/libs/nanoflann.hpp:1398-1405 | a branch whose bound, stretched by the tolerance, exceeds the worst distance holds no point that could enter the result |
| KDSearch.OfferNew | src/libs/nanoflann.hpp:1356-1365 | offering an unseen point keeps the result set listing the nearest of the points seen |
| KDSearch.SearchLeaf | src/libs/nanoflann.hpp:1350-1367 | comparing with the worst distance read at the start of the leaf misses nothing |
| KDSearch.SearchLevel | src/libs/nanoflann.hpp:1346-1409 | the result set lists the nearest of the points seen before and the live points below the node; dists is restored |
| BruteForce.AgreesWithScan | src/libs/nanoflann.hpp:1221-1241 | such a listing has min(k, N) distinct points with their own distances, at every rank between the distance of the sorted scan and (1 + eps) times it, equal for eps = 0 |
| KDIndex.BuildIndex | src/libs/nanoflann.hpp:1553-1563 | a tree over exactly the listed points, permuted, and none for an empty list; its cuts are those planned from the smallest box of all points |
| KDIndex.Query | src/libs/nanoflann.hpp:1582-1601 | adds the live points of an index to those the result set lists the nearest of |
| SingleIndex.SingleIndexAdaptor.constructor | src/libs/nanoflann.hpp:1170-1185 | lists every point of the data set, no tree yet |
| SingleIndex.SingleIndexAdaptor.Build | src/libs/nanoflann.hpp:1190-1202 | a tree over a permutation of all points |
| SingleIndex.SingleIndexAdaptor.FindNeighbors | src/libs/nanoflann.hpp:1221-1241 | an error exactly if a nonempty index was not built; otherwise lists the nearest of all points, within the tolerance |
| SingleIndex.SingleIndexAdaptor.KnnSearch | src/libs/nanoflann.hpp:1252-1259 | min(k, N) distinct points in ascending order with the distances of a sorted scan, no closer point left out, the other output slots untouched |
| BinaryCounter.First0Bit | src/libs/nanoflann.hpp:1821-1828 | the position of the least significant unset bit |
| BinaryCounter.LowestZeroBelow | src/libs/nanoflann.hpp:1886-1900 | it is below the number of trees exactly while the forest is not full |
| BinaryCounter.IncrementTree | src/libs/nanoflann.hpp:1886-1900 | adding a point moves exactly the points of the trees below the lowest zero, into that tree |
| DynamicIndex.DynamicIndexAdaptor.constructor | src/libs/nanoflann.hpp:1857-1873 | a valid forest over the initial data set, every point marked with its tree |
| DynamicIndex.DynamicIndexAdaptor.MergeSmaller | src/libs/nanoflann.hpp:1889-1896 | all smaller trees are emptied into the new one, every moved point's mark is overwritten |
| DynamicIndex.DynamicIndexAdaptor.AddNext | src/libs/nanoflann.hpp:1885-1901 | one addition keeps tree i at 2^i points or none, as bit i of the count says, and updates the marks |
| DynamicIndex.DynamicIndexAdaptor.AddPoints | src/libs/nanoflann.hpp:1882-1902 | any number of additions keeps the forest valid; unmoved points keep their mark, moved and new ones carry their tree; the history records each |
| DynamicIndex.DynamicIndexAdaptor.RemovePoint | src/libs/nanoflann.hpp:1905-1909 | marks a stored point, ignores others |
| DynamicIndex.DynamicIndexAdaptor.AppendData | src/libs/nanoflann.hpp:1794-1801 | the caller may append to the data set without invalidating any tree |
| DynamicIndex.MarksTellHistory | src/libs/nanoflann.hpp:1882-1909 | after any history of additions and removals, a stored point is marked as removed exactly if one of its removals has not been undone by a merge since |
| DynamicIndex.DynamicIndexAdaptor.FindNeighbors | src/libs/nanoflann.hpp:1924-1930 | one result set carried through all trees lists the nearest of all points not marked as removed |
| DynamicIndex.ForestAgreesWithScan | src/libs/nanoflann.hpp:1924-1930 | the distances are those of a sorted scan over the points not marked as removed |
| DynamicIndex.ForestPartitions | src/libs/nanoflann.hpp:1882-1902 | every stored point is in exactly one tree, and tree i holds 2^i points or none |
| DynamicIndex.RemovalLasts | src/libs/nanoflann.hpp:1889-1909 | a removal lasts exactly until the counter carries past the bit of the point's tree |
| DynamicIndex.RemovalLastsOneAddition | src/libs/nanoflann.hpp:1889-1909 | one addition undoes the removals of the last 2^pos - 1 points and no others |
| DynamicIndex.RemovedPointReturns | src/libs/nanoflann.hpp:1889-1909 | a concrete removed point that comes back |
| DynamicIndex.MaximumIsNotReached | src/libs/nanoflann.hpp:1857-1873 | t trees run out exactly when the count reaches 2^t - 1; for the trees set up for M points that is below M unless the logarithm was rounded up |
| PooledAllocator.RoundUpIsLeast | src/libs/nanoflann.hpp:648-653 | the least multiple of the word size, large enough if and only if the 64-bit sum does not wrap |
| PooledAllocator.BlockHoldsIff | src/libs/nanoflann.hpp:663-666 | a new block has room for the piece and the link if and only if the 64-bit sum of the block size does not wrap |
| PooledAllocator.BlockTooSmallIff | src/libs/nanoflann.hpp:653-666 | a new block is too small exactly for the sixteen requests from 2^64 - 31 to 2^64 - 16, which get the least block |
| Memory.ReadWritten | src/libs/nanoflann.hpp:674-676 | the address stored in the first word of a block is the one read from it |
| PooledAllocator.ChainGrows | src/libs/nanoflann.hpp:674-676 | linking a new block in front leaves the chain of all older blocks readable from memory |
| PooledAllocator.LayoutWithPiece | src/libs/nanoflann.hpp:686-690 | a piece cut off the unused end shares no byte with other pieces, the links or what remains |
| PooledAllocator.Pool.constructor | src/libs/nanoflann.hpp:612-627 | an empty pool; the current location is whatever was in memory |
| PooledAllocator.Pool.NewBlock | src/libs/nanoflann.hpp:658-684 | links in a block of the computed size; on failure only the waste count changes |
| PooledAllocator.Pool.Malloc | src/libs/nanoflann.hpp:648-693 | for every request: pieces stay pairwise disjoint, inside their blocks past the link, and every byte is used, wasted or remaining, if and only if the request does not overrun a new block |
| PooledAllocator.Pool.WriteInto | src/libs/nanoflann.hpp:648-693 | what callers write into their pieces leaves the chain and everything else about the pool intact |
| PooledAllocator.Pool.FreeAll | src/libs/nanoflann.hpp:634-642 | following the links in memory releases every block of the chain, each exactly once, and the pool is as new |
| PooledAllocator.BalancedIffRefusedWhenEmpty | src/libs/nanoflann.hpp:658-672 | after any calls the accounting balances if and only if every refused request came when nothing was left of the newest block, as computed from the requests and their answers alone |
| PooledAllocator.PieceAlignment | src/libs/nanoflann.hpp:605-611 | a piece is aligned to the word size if and only if its block starts half a word off |
| Geo.TreeData.constructor | src/Geo.cpp:62-69 | a ready three-dimensional index over the nodes' positions |
| Geo.DistanceInSpace | src/Geo.h:23-30 | the index's distance between a location and a node is (x-x')^2 + (y-y')^2 + (z-z')^2 |
| Geo.GeoIndex.GetNearestNodes | src/Geo.cpp:76-88 | min(n, N) distinct nodes, nearest first in space, no other node closer than any of them, then zeros |
| NetworkState.NetworkState.ParseStateUpdate | src/NetworkState.cpp:41-84 | the new list represents exactly the entries that read well, are recent and have content, in order; tree and list belong together |
| NetworkState.NodeRepresents | src/NetworkState.cpp:50-66 | a node has its entry's IP address and the location of that address, port and heartbeat congruent to the entry's and in range, the Ethereum address in small letters |
| NetworkState.OneRepresents | src/NetworkState.cpp:50-66 | that determines the node |
| NetworkState.SameLowerIff | src/NetworkState.cpp:51-54 | two addresses get the same small form if and only if they differ only in case |
| NetworkState.TwoMinutes | src/NetworkState.cpp:57-62 | an entry of 120 seconds is still recent, one of 121 is not unless heartbeats are ignored |
| NetworkState.ParseIsUnique | src/NetworkState.cpp:48-72 | the entries determine the parsed list |
| NetworkState.NetworkState.GetNearestEdgeNodes | src/NetworkState.cpp:115-123 | the listed nodes at the padded nearest positions of the tree, an error exactly if the list lacks one of them |
| NetworkState.DistinctIffEnough | src/NetworkState.cpp:113-123 | the answer is distinct if and only if there are at least n nodes; only an empty list is an error |
| NetworkState.NearestOfUpdate | src/NetworkState.cpp:48-123 | after an update of at least n nodes: n distinct nodes of accepted entries, nearest first in space; the address of any other accepted entry lies no closer |
| LineReader.LineShape | src/libs/httplib.h:418-444 | a line ends at its first newline, and only the last one may lack it |
| LineReader.DeliveredIff | src/libs/httplib.h:418-444 | a line is delivered if and only if a newline is ahead, or bytes are left on a stream that is not broken |
| LineReader.LinesRejoin | src/libs/httplib.h:418-444 | reading line after line loses and duplicates nothing |
| LineReader.StreamLineReader.Append | src/libs/httplib.h:447-457 | a byte goes to the fixed buffer or, with all before it, to the growing one |
| LineReader.StreamLineReader.GetLine | src/libs/httplib.h:418-444 | same line, rest and verdict as an unbuffered read-until-newline, for any buffer of at least two bytes |
| LineReader.StreamLineReader.Ptr | src/libs/httplib.h:410-416 | the C string at the start of the current buffer is the line up to its first NUL |
| Chunked.FromIToHex | src/libs/httplib.h:997-1006 | the hexadecimal digits of a number |
| Chunked.HexDenotes | src/libs/httplib.h:997-1006 | those digits are hexadecimal and denote the number |
| Chunked.ReadContentWithLength | src/libs/httplib.h:817-837 | exactly the announced bytes however reads are cut, failure exactly if there are fewer |
| Chunked.ReadContentChunked | src/libs/httplib.h:855-898 | outcome, body and rest of the chunked grammar with all its error paths, however reads are cut |
| Chunked.WriteChunks | src/libs/httplib.h:1680-1693 | one framed write per answer until the empty one or a failed write; offsets count the bytes before |
| Chunked.ChunksRoundTrip | src/libs/httplib.h:855-898 | reading framed chunks gives their concatenation and leaves what follows |
| Chunked.WrittenIsRead | src/libs/httplib.h:1680-1693 | what the server writes the client reads back, if and only if every chunk size fits an int; otherwise the reader throws |
| ChunkedCuts.FrameIsChunk | src/libs/httplib.h:1680-1693 | what is written for a chunk is a chunk by section 4.1 of RFC 7230 |
| ChunkedCuts.StoiReads | src/libs/httplib.h:860-866 | a size line of blanks, sign, 0x, digits and anything after is read as the signed number, and throws if and only if that does not fit an int |
| ChunkedCuts.StoiThrows | src/libs/httplib.h:860-866 | without a digit after blanks and sign it throws |
| ChunkedCuts.NoSizeThrows | src/libs/httplib.h:855-866 | a reply whose size line has no number makes the reader throw |
| ChunkedCuts.NegativeSizeEnds | src/libs/httplib.h:866-897 | a negative size ends the reply as if complete |
| ChunkedCuts.ReadChunk | src/libs/httplib.h:866-887 | a whole chunk is read and then what follows it |
| ChunkedCuts.WrongLineEnd | src/libs/httplib.h:874-880 | anything but a line end after a chunk's data ends the reply as a success, without that chunk |
| ChunkedCuts.NoTrailers | src/libs/httplib.h:889-897 | anything but a line end after the last size line is a failure |
| ChunkedCuts.CutShort | src/libs/httplib.h:855-898 | for every proper prefix of a chunked reply: failure, never an exception, except for a cut between carriage return and line feed after a chunk on a stream that is not broken, which is a success with the chunks before |
| Url.EncodeUrl | src/libs/httplib.h:931-959 | the loop computes the byte-wise encoding, stopping at a NUL |
| Url.FromHexToI | src/libs/httplib.h:976-995 | a value exactly if all digits are there |
| Url.DecodeUrl | src/libs/httplib.h:1041-1078 | the cursor loop computes the recursive decoding |
| Url.DigitsKept | src/libs/httplib.h:931-959 | encoding passes hexadecimal digits through and makes nothing else one |
| Url.UrlRoundTrip | src/libs/httplib.h:931-1078 | decoding undoes encoding if and only if the string has no NUL and no percent sign that starts an escape |
| Url.DecodeFixesIff | src/libs/httplib.h:1041-1078 | decoding leaves a string alone if and only if it has no plus sign and no escape |
| UrlFacts.PercentIsNotEscaped | src/libs/httplib.h:931-959 | a concrete string that does not survive |
| UrlFacts.EncodedIsSafe | src/libs/httplib.h:931-959 | no space, plus, apostrophe, comma, colon, semicolon, NUL or byte beyond ASCII is left |
| UrlFacts.EncodeFixesIff | src/libs/httplib.h:931-959 | encoding leaves a string alone if and only if it has none of those |
| UrlFacts.EncodeConcat | src/libs/httplib.h:931-959 | encoding goes byte by byte and stops at a NUL |
| UrlFacts.PlusBecomesSpace | src/libs/httplib.h:1070-1074 | without percent signs, decoding turns plus signs into spaces and nothing else |
| UrlFacts.ByteEscape | src/libs/httplib.h:1060-1068 | a percent sign and two digits stand for the byte they denote |
| UrlFacts.WideEscape | src/libs/httplib.h:1047-1059 | a percent sign, u and four digits stand for the UTF-8 of the code point they denote |
| UrlFacts.LonePercent | src/libs/httplib.h:1041-1078 | any other percent sign stands for itself |
| UrlFacts.Utf8RoundTrip | src/libs/httplib.h:1008-1039 | section 3 of RFC 3629 reads the code point back; nothing is written for surrogates |
| Query.Split | src/libs/httplib.h:381-398 | the loop calls back with the pieces between delimiters, none for an empty text |
| Query.SplitShape | src/libs/httplib.h:381-398 | one piece more than delimiters, none containing one |
| Query.ParseQueryText | src/libs/httplib.h:1080-1094 | entries are parsed and emplaced piece by piece |
| Query.KeyAndValue | src/libs/httplib.h:1084-1093 | of the parts between equals signs, the first nonempty one is the key and the last one after it the value |
| Query.LessIsLexicographic | src/libs/httplib.h:1080-1094 | keys are ordered by their first difference, a prefix first |
| Query.MultimapIsSorted | src/libs/httplib.h:1080-1094 | for every list of entries: keys in order, under each key the values in order of arrival, none lost |
| Query.BuildQuery | src/libs/httplib.h:2183-2193 | the loop joins the entries with ampersands |
| Query.EntryRoundTrip | src/libs/httplib.h:1084-1093 | one entry survives if and only if key and value have no equals sign, a value has a key, and decoding fixes the value |
| Query.ListRoundTrip | src/libs/httplib.h:1080-1094 | a list of entries survives if and only if each does and none contains an ampersand |
| Query.EntryGetsLighter | src/libs/httplib.h:1084-1093 | written and parsed back, an entry is the same or has less weight: nothing that is changed once can come out equal in the end |
| Query.QueryRoundTrip | src/libs/httplib.h:2183-2196 | for every multimap: the parsed multimap is the same, including the order of equal keys, if and only if every entry survives and none contains an ampersand |
| Path.IsValidPath | src/libs/httplib.h:657-692 | accepts exactly the paths whose components between slashes can be walked from the base directory without leaving it |
| Path.WalkableIff | src/libs/httplib.h:657-692 | that is, no part of the path read from the front has more steps up than names |
| Cache.ContentCache.AddCachedRoute | src/Cache.cpp:35-62 | the address is cached afterwards; a new route holds the content and headers given and the hash of the content; no other route changes |
| Cache.ContentCache.GetAssetHashMap | src/Cache.cpp:64-72 | every cached address with the hash of its content, in whatever order routes are visited |
| ProxyHistory.RequestIsServed | src/ProxyHandler.cpp:34-100 | over every run: a request connects if and only if it is not a GET or its address is not cached, and the origin address resolves; a GET of a cached address is answered at once with the route's content and headers |
| ProxyHistory.CallsTellHistory | src/ProxyHandler.cpp:19-264 | over every run and next callback: each call on client, origin, connector or cache is made if and only if the history of callbacks gives its reason, and in order |
| ProxyHistory.RequestIsRelayed | src/ProxyHandler.cpp:101-166 | over every run: the origin gets the request's headers and then, in order, every body piece and end that came while it was there |
| Proxy.ProxyHandler.RequestComplete | src/ProxyHandler.cpp:124-138 | reaction: cache what was collected for a GET, end the client side, delete if nothing is left |
| Proxy.ProxyHandler.CheckForShutdown | src/ProxyHandler.cpp:19-25 | deletes exactly if the client has ended and there is no origin transaction |
| ProxyRuns.CallsAreSafeInEveryRun | src/ProxyHandler.cpp:101-147 | over every run: the origin is called only while its transaction exists, the client only before it has ended |
| ProxyRuns.HandlerLifetime | src/ProxyHandler.cpp:19-25 | over every run: deleted once exactly when both peers are gone, at most one answer, no callback afterwards |
| ProxyRuns.StoresAreFilled | src/ProxyHandler.cpp:124-138 | a new route holds what its own handler fetched and answered |
| ProxyRuns.InvStep | src/ProxyHandler.cpp:34-270 | every allowed callback of every handler keeps the invariant of the whole system |
| ProxyRuns.CacheCoherence | src/Cache.cpp:24-72 | over every interleaving: a cached address holds the ordered concatenation of all origin chunks of one GET for it, equal to what that client was sent, under its hash, for ever |
| ProxyHistory.CacheTellsHistory | src/ProxyHandler.cpp:124-138 | over every run: an address is cached if and only if a GET for it has completed for which the origin delivered content, and holds what the first such GET was given |
| ProxyRuns.AnswersComeFromOrigin | src/ProxyHandler.cpp:34-72 | over every interleaving: each successful answer to a GET carries all chunks of one origin reply for its address; to any other request, all chunks of the reply to that very request |
| ProxyRuns.ReplyIsAnsweredIff | src/ProxyHandler.cpp:198-241 | over every run: a handler whose origin reply ends answers, now or ever, if and only if before that end its client was there, headers had come and at least one body chunk; the answer is all chunks in order |
| ProxyRuns.SettledRun | src/ProxyHandler.cpp:230-252 | once the reply is over, nothing more is answered, whatever happens next |
| ProxyRuns.EmptyReplyHappens | src/ProxyHandler.cpp:230-241 | a concrete run: a GET whose reply has headers and ends, with its client still there |
| ProxyRuns.EmptyReplyIsNeverAnswered | src/ProxyHandler.cpp:230-241 | a reply without a body is never answered, whatever happens next |

## Left out

- PooledAllocator.Pool.Malloc: does not model wrap-around of the statistics counters; while the pool is sound `usedMemory` is bounded by the memory in its blocks, and `wastedMemory` wraps only after refused requests have counted 2^64 bytes.
- DynamicIndex.DynamicIndexAdaptor.AddPoints: requires the next points not yet stored and room for them; for any other range the program writes marks of the wrong points or beyond its vectors.
- Rounding and NaN in coordinates and distances, and the trigonometry in src/Location.h: positions are given real vectors.
- Overflow of the point counts and of the 64-bit time difference in a heartbeat comparison.
- The other metrics, radius search, saving and loading an index, and the matrix adaptor: variants of the same arguments.
- The moment between replacing the tree and replacing the node list: queries are related to updates only when no update is half done; what a query does otherwise is still in the contract of GetNearestEdgeNodes.
- JSON parsing, the order of its members, the GeoIP database, and the polling thread.
- Sockets, TLS, compression, header and multipart parsing by regular expressions, file serving: input and output, whose results depend on the network, libraries and the file system.
- UTF-8 sequences of four bytes: the decoder never asks for them.
- The maps' own size limits, writing cached files to disk, and the service worker.
- Header fields other than those copied into answers, and the removal of hop-by-hop headers.
- Router, redirect, reject and direct handlers: dispatch without state.
