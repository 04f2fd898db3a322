# VEND edge-query codes, verified

VEND keeps a small fixed-size code per vertex and answers an edge query as `Neighbor`, `NonNeighbor` or `Uncertain`.
What it promises is that no answer ever contradicts the graph. This project models the layers that promise passes
through and proves it end to end, for two complete builders:

* **Storage.** `Common` holds shared notions; `Bits` and `BitSet` model the byte buffer: mask tables, multi-byte field writes and reads, and the two field
  searches, down to `&`, `|` and shifts on bytes.
* **Hybrid codes.** `Config` computes the layout, `HashCount` keeps the incremental slot counts, `HybridCode` says what a
  code is and what it answers, `HybridQuery` combines two sides and proves the two-stage query equal to the direct one,
  `HybridEncode` is the encoder class itself, with the window search.
* **Hybrid build.** `Peeling` and `BucketPeel` are the four-array bucket peeling; `HybridBuild` is the whole build and its
  two main theorems, `BuiltSound` and `BuiltQueriesAgree`.
* **Delta-byte codes.** `Vbyte`, `ByteStream` and `DeltaCode` are the byte codec, its decoder and the window optimiser;
  `RangeCompEncode` is the encoder class.
* **Worklist build.** `Worklist` shows that every order of work retires the same vertices; `RangeCompBuild` is the whole build and
  its soundness theorem.
* **Further parts.** `Varint` (LEB128 codec with fast and slow paths), `CountingFilter` (counters over runs of inserts and
  deletes) and `RangeEncode` (the plain range encoder).

Code that changes arrays and buffers step by step is modelled by classes, arrays and loops; every such method is tied by
its contract to a function of the old state, and the theorems are lemmas about those functions and about invariants of
the whole state. All vertex ids are `1..V`; index 0 of the arrays is the unused vertex with an empty list. Graphs are simple
and symmetric with sorted lists, as the loader leaves them (src/graph/graph.cpp:133-136). Integers are unbounded in Dafny, so 32-bit
wrap-around is written out wherever the source relies on it or can hit it (range test by subtraction, decoder shifts,
varint differences, filter counters, the eight-bit byte index, the 32-bit hash of a delete).

Four promises do not hold of the code as it stands. Each has a lemma for the failing input or family and an
if-and-only-if for when it does hold:

* A vertex count that is a power of two leaves one bit too few for the top id: `Config.TopIdFits`, `HybridCode.TopIdLost`,
  `HybridCode.DecodableIff`.
* The fill loop for absent degrees yields right bucket starts exactly when every run of absent degrees is preceded by a
  degree that exactly one vertex has: `Peeling.FillIff`, `HybridBuild.Prepare`. With every degree present this holds trivially.
  Stars are the failing family: `Peeling.StarStopsEarly`, `HybridBuild.SmallStarStopsEarly`.
* The byte codec reserves at most four bytes, so exactly the values below 2^28 have codes: `ByteStream.CodableIff`.
* A delete in the counting filter keeps its hash in a 32-bit variable. The counters of a run are exact if and only if no
  delete of it cut off a hash (`CountingFilter.DeleteUndoesIff`, `CountersExactIff`, `HistoryForgottenIff`), and over all runs
  no present edge is lost if and only if no delete strays onto a slot of an edge (`SoundIff`). `LargeFilterUnsound` is a
  filter the source can be configured to, where one is.

## Model

| member | source | states |
|---|---|---|
| `BitSet.MaskTables` | src/include/util/bitset_simd.h:15-46 | every mask-table entry in use is the run of ones, or its complement, that its two indices call for |
| `BitSet.MaskedStore` | src/include/util/bitset_simd.h:102-106 | masking a byte and or-ing in a shifted value replaces exactly the addressed bits |
| `BitSet.BitSetSIMD.constructor` | src/include/util/bitset_simd.h:50-53 | a new buffer of size/8 bytes is all zero |
| `BitSet.BitSetSIMD.Clear` | src/include/util/bitset_simd.h:80-83 | every bit is off afterwards |
| `BitSet.BitSetSIMD.SetOne` | src/include/util/bitset_simd.h:74 | exactly bit `pos` becomes one |
| `BitSet.BitSetSIMD.SetZero` | src/include/util/bitset_simd.h:76 | exactly bit `pos` becomes zero |
| `BitSet.BitSetSIMD.IsOne` | src/include/util/bitset_simd.h:78 | the mask test reads bit `pos` |
| `BitSet.BitSetSIMD.BlockSet` | src/include/util/bitset_simd.h:87-108 | for begin below 2048 and any alignment the buffer becomes the old one with the binary numeral of the value spliced in, so all other bits are kept |
| `BitSet.BitSetSIMD.BlockGet` | src/include/util/bitset_simd.h:136-153 | the result is the number written in those bits, across any number of bytes |
| `BitSet.ReadBack` | src/include/util/bitset_simd.h:87-153 | a field reads back the value written into it |
| `BitSet.ReadElsewhere` | src/include/util/bitset_simd.h:87-153 | a disjoint field is not disturbed by a write |
| `BitSet.WriteFieldsRead` | src/encode/single/hybrid_encode.cpp:100-102 | fields written one after the other all read back |
| `BitSet.WriteOverBlank` | src/encode/single/hybrid_encode.cpp:100-102 | after writing into a cleared buffer the fields hold the list and then zeros |
| `BitSet.BitSetSIMD.BlockFind` | src/include/util/bitset_simd.h:155-164 | equals the early-exit search over the stored fields |
| `BitSet.BitSetSIMD.LanesMatch` | src/include/util/bitset_simd.h:171-188 | a four-lane comparison hits iff the value is among the loaded fields, or is zero with padded lanes |
| `BitSet.BitSetSIMD.BlockFindSIMD` | src/include/util/bitset_simd.h:166-190 | Neighbor iff the value equals some field, or is zero with a padded last group |
| `BitSet.ScanExact` | src/include/util/bitset_simd.h:155-164 | on increasing ids followed by zeros the early exit loses nothing: Neighbor iff the value is a stored id |
| `BitSet.ScansAgree` | src/include/util/bitset_simd.h:155-190 | both searches give the same answer on every stored list, for all ids |
| `Config.CeilLog2` | src/include/common/config.cpp:64 | the least exponent whose power of two reaches the number |
| `Config.TopIdFits` | src/include/common/config.cpp:64 | the id field holds every id up to V iff V is no power of two |
| `Config.InitOk` | src/include/common/config.cpp:57-71 | the computed layout satisfies all inequalities the codes rest on, wastes nothing (one more id fits neither code, one bit less holds neither id nor count), and holds every id iff V is no power of two |
| `HashCounting.HashCount.constructor` | src/include/encode/hash_count.h:18-26 | an empty table |
| `HashCounting.HashCount.OfSize` | src/include/encode/hash_count.h:30-37 | an empty table of the given size |
| `HashCounting.HashCount.AddHash` | src/encode/hash_count.cpp:25-34 | one more key in its slot, and the count stays the number of occupied slots |
| `HashCounting.HashCount.RemoveHash` | src/encode/hash_count.cpp:13-23 | one key fewer in its slot unless it was empty, and the count stays the number of occupied slots |
| `HashCounting.HashCount.ReConstruct` | src/encode/hash_count.cpp:36-61 | the table is that of the entries behind the first window, or, reversed, of those before the last window less one |
| `HashCounting.HashCount.Slide` | src/encode/single/hybrid_encode.cpp:206-208 | adding the entry that leaves and removing the one that enters gives the recount of what is outside the next window |
| `HashCounting.HashCount.GetScore` | src/encode/hash_count.cpp:63-94 | the number of ids the window decides: those in its value range, and of the others, in whole turns through the table, those whose remainder is an empty slot |
| `HashCounting.ScoreCounts` | src/encode/hash_count.cpp:63-94 | the score formula is that count, for every window and every table |
| `HashCounting.HashPartCounts` | src/encode/hash_count.cpp:91 | VERTEX_SIZE / hash_size * (hash_size - hash_count) is the number of ids below the last whole turn whose remainder is an empty slot |
| `HashCounting.RangeSize` | src/encode/hash_count.cpp:71-90 | last - first + 1 is the number of ids in the value range, from 0 for a leftmost and to V for a rightmost window |
| `HashCounting.Score` | src/encode/hash_count.cpp:63-94 | no score exceeds V+1 |
| `HashCounting.HashCount.Construct` | src/include/encode/hash_count.h:65-72 | counts a whole list into an empty table |
| `HashCounting.HashCount.CountOutside` | src/include/encode/hash_count.h:75-87 | decrementing a copy for the window's entries leaves the number of slots occupied by the others |
| `HashCounting.HashCount.GetVal` | src/include/encode/hash_count.h:74-112 | from the whole list's table: the number of ids the window decides by the table of what is outside it, the score a recount would give |
| `HashCounting.OutsideSlides` | src/encode/single/hybrid_encode.cpp:206-208 | how every slot's occupancy outside the window changes by one slide |
| `HybridCode.CounterScores` | src/encode/single/hybrid_encode.cpp:194-212 | a counter holding what is counted for a window, which is known for every kind, gives that window's score |
| `HybridCode.CountedSlots` | src/encode/single/hybrid_encode.cpp:196-212 | for all but rightmost windows the slots counted are exactly those the code sets; for rightmost ones, where the source counts the wrong entry or one too few, they differ by at most one |
| `HybridCode.HashBitAt` | src/encode/single/hybrid_encode.cpp:245-249 | a hash bit of a partial code is on iff some left-over id leaves its slot as remainder modulo the size of the hash part |
| `HybridCode.HashBitsCounted` | src/encode/single/hybrid_encode.cpp:245-249 | the number of hash bits on equals the number of occupied slots the counter maintains |
| `HybridCode.PartialReads` | src/encode/single/hybrid_encode.cpp:235-250 | header and block of a partial code read back, a full-hash code reading as a middle one |
| `HybridCode.PartialAnswer` | src/encode/single/hybrid_encode.cpp:36-60 | on a partial code the test searches the block or the hash part, by the block's value range |
| `HybridCode.HashAnswerIs` | src/include/encode/single/hybrid_encode.h:164-166 | the hash part excludes an id iff no left-over id is congruent to it modulo its size, and decides nothing otherwise |
| `HybridCode.WindowAnswer` | src/encode/single/hybrid_encode.cpp:36-60 | the one-sided answer on a stored window of any kind, for every id: by membership inside its value range, and outside it NonNeighbor iff no left-over id is congruent, else Uncertain |
| `HybridCode.PartialSound` | src/encode/single/hybrid_encode.cpp:29-62 | whichever of the four window kinds is stored, Neighbor only for members and NonNeighbor only for others, for all ids |
| `HybridCode.FullReads` | src/encode/single/hybrid_encode.cpp:97-102 | a decodable code holds the list, then zeros |
| `HybridCode.FullExact` | src/encode/single/hybrid_encode.cpp:29-35 | a decodable code answers exactly by membership |
| `HybridCode.TopIdLost` | src/include/common/config.cpp:64 | with V a power of two no decodable code whatever reports the top id |
| `HybridCode.FieldsHoldIds` | src/include/common/config.cpp:57-71 | ids fit their fields iff every short list has an exact decodable code |
| `HybridCode.DecodableIff` | src/include/common/config.cpp:57-71 | every short list has an exact decodable code iff V is no power of two |
| `HybridCode.WindowScoreCounts` | src/encode/single/hybrid_encode.cpp:219-233 | the score a window is compared by is the number of ids it decides, by the table of what is counted for it |
| `HybridCode.ChosenStep` | src/encode/single/hybrid_encode.cpp:219-233 | a further window takes over only with a strictly higher score, so the first highest stays |
| `HybridCode.BestIsWindow` | src/encode/single/hybrid_encode.cpp:178-217 | a best code is the code of one of the candidate windows |
| `HybridEncoder.HybridEncode.constructor` | src/include/encode/single/hybrid_encode.h:46-47 | one blank buffer per vertex, all apart |
| `HybridEncoder.HybridEncode.SetBlockModel` | src/include/encode/single/hybrid_encode.h:192-205 | writes the two model bits and nothing else |
| `HybridEncoder.HybridEncode.GetBlockModel` | src/include/encode/single/hybrid_encode.h:180-190 | reads the window kind from the two model bits |
| `HybridEncoder.HybridEncode.WriteIds` | src/encode/single/hybrid_encode.cpp:242-244 | consecutive id fields are written first to last |
| `HybridEncoder.HybridEncode.WriteHeader` | src/encode/single/hybrid_encode.cpp:238-241 | the buffer holds exactly the header of a partial code |
| `HybridEncoder.HybridEncode.WriteHashes` | src/encode/single/hybrid_encode.cpp:247-249 | sets the hash bit of every left-over id |
| `HybridEncoder.HybridEncode.SetNonDecodable` | src/encode/single/hybrid_encode.cpp:235-250 | the buffer holds exactly the partial code of block and left-over ids, whatever it held before |
| `HybridEncoder.HybridEncode.ChooseHighest` | src/encode/single/hybrid_encode.cpp:219-233 | installs the window's code iff its score is strictly higher than the best so far |
| `HybridEncoder.HybridEncode.Try` | src/encode/single/hybrid_encode.cpp:219-233 | with one more window tried the buffer still holds the first highest-scoring one, its score computed from what the counter holds |
| `HybridEncoder.HybridEncode.TryMiddles` | src/encode/single/hybrid_encode.cpp:204-210 | all middle windows of one size, the sliding counter equal to a recount at each |
| `HybridEncoder.HybridEncode.TrySize` | src/encode/single/hybrid_encode.cpp:195-212 | leftmost, middle and rightmost windows of one size in order, with at least one installed |
| `HybridEncoder.HybridEncode.DynamicChoose` | src/encode/single/hybrid_encode.cpp:178-217 | the buffer is the code of the first window, in the source's order over all sizes, with the highest computed score, that score is returned, and some candidate was installed |
| `HybridEncoder.HybridEncode.EncodeVertex` | src/encode/single/hybrid_encode.cpp:95-106 | a cleared buffer becomes the code of the list: all of it when it fits, else the code of its first highest-scoring window |
| `HybridEncoder.HybridEncode.FindIds` | src/encode/single/hybrid_encode.cpp:32-35 | either search over a stretch of id fields |
| `HybridEncoder.HybridEncode.FirstId` | src/encode/single/hybrid_encode.cpp:41-43 | the first stored id, or 0 for an empty block |
| `HybridEncoder.HybridEncode.LastId` | src/encode/single/hybrid_encode.cpp:45-47 | the last stored id, or 0 for an empty block |
| `HybridEncoder.HybridEncode.HashTest` | src/encode/single/hybrid_encode.cpp:51-54 | Uncertain without a hash part or on a set bit, NonNeighbor otherwise |
| `HybridEncoder.HybridEncode.NonNeighborTest` | src/encode/single/hybrid_encode.cpp:29-62 | the one-sided answer of a code, for every readable buffer |
| `HybridEncoder.HybridEncode.NEpairTest` | src/include/encode/single/hybrid_encode.h:76-96 | the combined answer: a lone decodable side decides, otherwise the smaller answer |
| `HybridEncoder.HybridEncode.Decode` | src/encode/single/hybrid_encode.cpp:66-93 | the header record of a code |
| `HybridEncoder.HybridEncode.NonNeighborTestDecoded` | src/encode/single/hybrid_encode.cpp:13-27 | the one-sided answer from a header record, with the range tested by wrapped subtraction |
| `HybridEncoder.HybridEncode.NEpairTestDecoded` | src/include/encode/single/hybrid_encode.h:49-71 | the first certain answer, decodable sides first |
| `HybridQuery.EncodesSound` | src/encode/single/hybrid_encode.cpp:29-62 | any code of a list is truthful about every id, and decides every id when the list was short |
| `HybridQuery.TypeMasks` | src/encode/single/hybrid_encode.cpp:80-89 | the masks 0x0d and 0x0b single out the leftmost and the rightmost kind |
| `HybridQuery.AnswerMasks` | src/include/encode/single/hybrid_encode.h:57-69 | the masks 0x01 and 0x03 test for Neighbor and for a certain answer |
| `HybridQuery.WrappedRange` | src/encode/single/hybrid_encode.cpp:17 | the comparison of wrapped differences is the two-sided range test |
| `HybridQuery.StoredShape` | src/encode/single/hybrid_encode.cpp:95-106 | every code an encoder leaves has sorted ids, then zeros, and no zeros in a partial block |
| `HybridQuery.StagedOneSidedAgrees` | src/encode/single/hybrid_encode.cpp:13-93 | on every stored code, decoding the header first changes no one-sided answer, with either search |
| `HybridQuery.UncertainIff` | src/include/encode/single/hybrid_encode.h:49-96 | both query forms are uncertain iff both one-sided answers are |
| `HybridQuery.QueriesAgree` | src/include/encode/single/hybrid_encode.h:49-96 | two-stage and direct query agree although one takes the first certain answer and the other the minimum, whenever two partial codes agree on the edge |
| `Peeling.RemainingDrop` | src/vend/range_vend.cpp:231-251 | retiring one vertex shortens its neighbours' residual lists by one and leaves the others alone |
| `Peeling.LowerDegree` | src/vend/range_vend.cpp:235-249 | the swap, the bumped bucket start and the lowered degree keep permutation, inverse, order and all bucket starts |
| `Peeling.BucketsSorted` | src/vend/range_vend.cpp:169-171 | the arrays always list the vertices by increasing degree |
| `Peeling.BinCounts` | src/vend/range_vend.cpp:169-171 | bin[d] is the number of vertices, counting the unused vertex 0, of degree below d |
| `Peeling.FillIff` | src/vend/range_vend.cpp:209-216 | the fill loop yields right bucket starts iff exactly one vertex has the degree before each run of absent degrees |
| `Peeling.StarStopsEarly` | src/vend/range_vend.cpp:209-221 | on every star with more than k + 2 vertices the bound of the peeling loop is 2, and what the first two positions leave is no core |
| `HybridBuild.SmallStarStopsEarly` | src/include/common/config.cpp:57-71 | such a star under the layout of one word and thirteen vertices |
| `Peeling.DenseSurvives` | src/vend/range_vend.cpp:220-255 | no set in which everyone has more than k neighbours inside ever loses a member |
| `Peeling.PeelingLeavesCore` | src/vend/range_vend.cpp:220-255 | a finished peeling leaves exactly the largest such set |
| `BucketPeel.CountDegrees` | src/vend/range_vend.cpp:173-181 | all degrees and their maximum |
| `BucketPeel.FirstIndices` | src/vend/range_vend.cpp:200-208 | `pos` inverts `vert`, and each degree that occurs gets its first index, the others zero |
| `BucketPeel.RecordIndex` | src/vend/range_vend.cpp:202-207 | one entry of that pass |
| `BucketPeel.FillBins` | src/vend/range_vend.cpp:209-216 | the nested fill loop computes the recursive fill of the raw starts |
| `BucketPeel.LowerNeighbor` | src/vend/range_vend.cpp:235-249 | lowers one degree by one, keeps the bucket order and does not touch entries before that bucket |
| `BucketPeel.WalkStep` | src/vend/range_vend.cpp:231-250 | one neighbour of the vertex being retired: residual degrees stay tracked, the processed prefix is unchanged |
| `BucketPeel.Retire` | src/vend/range_vend.cpp:222-252 | retiring a vertex keeps the whole peeling invariant and returns exactly its neighbours not retired before, at most its tracked degree many |
| `BucketPeel.MarkRetired` | src/vend/range_vend.cpp:252 | `filtered` stays the set of processed positions |
| `BucketPeel.LiveNeighbors` | src/vend/range_vend.cpp:272-277 | the neighbours not filtered out, in order |
| `HybridBuild.LeftOver` | src/vend/range_vend.cpp:221 | when the loop stops every unretired vertex has more than max_kcore unretired neighbours |
| `HybridBuild.Prepare` | src/vend/range_vend.cpp:171-216 | the arrays before peeling are a bucket order iff the gaps among the degrees are harmless, for every tie order of the sort |
| `HybridBuild.EncodeNext` | src/vend/range_vend.cpp:253 | encoding one more vertex leaves the codes of all others as they were |
| `HybridBuild.PeelOne` | src/vend/range_vend.cpp:222-255 | one turn: array invariant, peeling order and codes are all kept |
| `HybridBuild.PeelAll` | src/vend/range_vend.cpp:220-255 | the loop ends with every retired vertex encoded by the neighbours it then had, at most max_kcore of them |
| `HybridBuild.EncodeLeft` | src/vend/range_vend.cpp:269-280 | one unretired vertex is encoded with its unretired neighbours |
| `HybridBuild.EncodeRest` | src/vend/range_vend.cpp:269-280 | all unretired vertices are, and no retired code changes |
| `HybridBuild.BuildEncoding` | src/vend/range_vend.cpp:163-281 | the whole build ends in a built state, where every vertex carries the code of the neighbours it then had (the first highest-scoring window when they are too many), and whose unretired vertices are exactly the largest set with more than max_kcore neighbours inside each |
| `HybridBuild.PeelAndEncode` | src/vend/range_vend.cpp:218-280 | the same from prepared arrays |
| `HybridBuild.ListHas` | src/vend/range_vend.cpp:231-234 | a neighbour is on a vertex's encoded list iff it had not been retired before it |
| `HybridBuild.BuiltSound` | src/include/encode/single/hybrid_encode.h:76-96 | in every built state no direct query about two distinct ids contradicts the graph, a retired endpoint makes the answer certain, and it is uncertain iff both sides are |
| `HybridBuild.BuiltQueriesAgree` | src/include/encode/single/hybrid_encode.h:49-96 | in every built state the two-stage query equals the direct one for all pairs and either search |
| `HybridBuild.Query` | src/include/encode/single/hybrid_encode.h:49-96 | the query methods of the encoder, called after a build: both return the same answer, and it is right about the graph |
| `Vbyte.CompressIsBytes` | src/include/encode/single/compression.h:197-217 | the masked and shifted word is, bit for bit, the flagged seven-bit groups of the value |
| `Vbyte.LeastBytes` | src/include/encode/single/compression.h:181-187 | the threshold loop gives the least number of seven-bit groups that holds the value, and four beyond 2^28 |
| `ByteStream.PutCode` | src/include/encode/single/compression.h:110-116 | writing a code replaces exactly its bytes |
| `ByteStream.Decode` | src/include/encode/single/compression.h:219-231 | the pointer loop reads one value and never runs past a buffer whose last byte is unflagged |
| `ByteStream.DecodeCode` | src/include/encode/single/compression.h:197-231 | a stored code decodes to its value and ends where it was written |
| `ByteStream.CodableIff` | src/include/encode/single/compression.h:181-231 | a value has a code of at most four bytes iff it is below 2^28 |
| `ByteStream.ValuesOfCodes` | src/include/encode/single/compression.h:110-116 | codes written one after the other over zeros decode to the list, then zeros, to the end of the buffer |
| `DeltaCode.GetDeltas` | src/include/encode/single/compression.h:321-329 | first entry and successive gaps |
| `DeltaCode.GetByteBits` | src/include/encode/single/compression.h:102-108 | the byte cost of a list |
| `DeltaCode.GetRequiredBits` | src/include/encode/single/compression.h:239-242 | the byte cost of the gaps |
| `DeltaCode.MergedGap` | src/include/encode/single/compression.h:181-187 | a merged gap takes no more bytes than the two gaps did |
| `DeltaCode.DeltaCostShrinks` | src/include/encode/single/compression.h:239-242 | dropping any entries of a sorted list never raises its delta cost |
| `DeltaCode.PlainCostShrinks` | src/include/encode/single/compression.h:102-108 | nor its plain byte cost, nor a fixed width per entry |
| `DeltaCode.FindDeltaExact` | src/include/encode/single/compression.h:290-300 | the walk over gaps and zero padding answers exactly by membership |
| `DeltaCode.ScanPadded` | src/include/encode/single/compression.h:154-162 | so does the plain search over values and zero padding |
| `DeltaCode.WindowGrows` | src/include/encode/single/compression.h:263-266 | the running bit count of a growing window is its cost, which never falls |
| `DeltaCode.ChooseWindow` | src/include/encode/single/compression.h:249-274 | some window of at least two entries is found; it fits, no fitting window the loops range over spans more, and those they come to before it span less, in spite of break and continue |
| `DeltaCode.BestWindowUnique` | src/include/encode/single/compression.h:254-273 | there is only one such window |
| `DeltaCode.GrowFrom` | src/include/encode/single/compression.h:254-273 | one outer turn keeps the best fitting window seen |
| `RangeCompEncoder.RangeCompEncode.constructor` | src/include/encode/single/range_com_encode.h:9-18 | one buffer per vertex, all apart |
| `RangeCompEncoder.RangeCompEncode.SetFlag` | src/include/encode/single/range_com_encode.h:47-49 | replaces the flag word only |
| `RangeCompEncoder.RangeCompEncode.GetFlag` | src/include/encode/single/range_com_encode.h:42-44 | the flag word is not zero |
| `RangeCompEncoder.FlagReads` | src/include/encode/single/range_com_encode.h:42-49 | the flag reads back in front of any codes |
| `RangeCompEncoder.RangeCompEncode.Encode` | src/include/encode/single/compression.h:110-116 | the codes of a list are written one after the other, other bytes kept |
| `RangeCompEncoder.RangeCompEncode.EncodeFull` | src/include/encode/single/compression.h:244-247 | the buffer is the full code of the list's gaps |
| `RangeCompEncoder.RangeCompEncode.EncodePlain` | src/include/encode/single/compression.h:110-116 | the buffer is the full code of the list itself |
| `RangeCompEncoder.RangeCompEncode.WindowList` | src/include/encode/single/compression.h:275-283 | minimum, maximum and the inner gaps of a window |
| `RangeCompEncoder.RangeCompEncode.DynamicEncode` | src/include/encode/single/compression.h:249-284 | the buffer is the code of the first widest fitting window |
| `RangeCompEncoder.RangeCompEncode.EncodeVertex` | src/include/encode/single/range_com_encode.h:20-34 | whatever the buffer held, it becomes the full code if the gaps fit and the first widest fitting window of the padded list otherwise |
| `RangeCompEncoder.RangeCompEncode.FindFull` | src/include/encode/single/compression.h:290-300 | the walk over the decoded gaps |
| `RangeCompEncoder.RangeCompEncode.FindPlain` | src/include/encode/single/compression.h:154-162 | the search over the decoded values |
| `RangeCompEncoder.RangeCompEncode.Walk` | src/include/encode/single/compression.h:292-300 | the loop over running sums modulo 2^32 |
| `RangeCompEncoder.RangeCompEncode.FindWindow` | src/include/encode/single/compression.h:301-317 | ends first, then the walk between them |
| `RangeCompEncoder.RangeCompEncode.NonNeighborTest` | src/include/encode/single/range_com_encode.h:36-40 | the one-sided answer of a decodable buffer |
| `RangeCompEncoder.RangeCompEncode.NEpairTest` | src/include/encode/single/range_encode.h:13-21 | the smaller of both one-sided answers |
| `RangeCompEncoder.FullCodeExact` | src/include/encode/single/compression.h:244-300 | a full delta code answers every id exactly by membership |
| `RangeCompEncoder.PlainCodeExact` | src/include/encode/single/compression.h:110-162 | so does a full plain byte code, padding matching no id |
| `RangeCompEncoder.WindowCodeExact` | src/include/encode/single/compression.h:275-317 | a stored window answers by membership in the list for every id from its minimum to its maximum, and Uncertain for all others |
| `RangeCompEncoder.StoredSound` | src/include/encode/single/range_com_encode.h:20-40 | every stored code decodes to its end, never contradicts its list, and decides every id when the list fits |
| `Worklist.RequiredBits` | src/include/encode/single/compression.h:33 | the bits of all three costings: entries times width, bytes, bytes of gaps |
| `Worklist.CostShrinks` | src/include/encode/single/compression.h:33 | under all three costings dropping entries never costs more |
| `Worklist.CostFalls` | src/vend/range_com_vend.cpp:49-56 | the more vertices are retired, the cheaper every residual list |
| `Worklist.FairStep` | src/vend/range_com_vend.cpp:56-65 | retiring a vertex that fits keeps every stuck set whole |
| `Worklist.FinishedIsLargest` | src/vend/range_com_vend.cpp:47-74 | what is left when nothing fits any more is the largest stuck set |
| `Worklist.FinishedUnique` | src/vend/range_com_vend.cpp:47-74 | every iteration order of the sets retires the same vertices |
| `Worklist.CoverStep` | src/vend/range_com_vend.cpp:28-72 | every edge at a retired vertex stays on a list that decides it |
| `RangeCompBuild.Fitting` | src/vend/range_com_vend.cpp:16-25 | exactly the vertices whose whole lists fit, in order |
| `RangeCompBuild.FirstRound` | src/vend/range_com_vend.cpp:26-45 | they are retired with whole lists, none is left, and all their neighbours are pending |
| `RangeCompBuild.Residual` | src/vend/range_com_vend.cpp:50-56 | the residual list of a vertex and whether it fits |
| `RangeCompBuild.HistoryStep` | src/vend/range_com_vend.cpp:38-65 | a retirement extends the record of who was retired when and with which list: the whole list in the first round, then what remained of it |
| `RangeCompBuild.RetireVertex` | src/vend/range_com_vend.cpp:64-65 | encodes and marks one vertex, leaving all other codes alone |
| `RangeCompBuild.WorkOn` | src/vend/range_com_vend.cpp:49-72 | one worklist vertex: whatever is left and fits stays pending, and new work appears only by a retirement |
| `RangeCompBuild.Round` | src/vend/range_com_vend.cpp:48-73 | one round over the set in any order |
| `RangeCompBuild.PeelByCost` | src/vend/range_com_vend.cpp:16-74 | the worklist loop ends, in a finished state |
| `RangeCompBuild.EncodeKept` | src/vend/range_com_vend.cpp:96-104 | one unretired vertex is encoded with its unretired neighbours |
| `RangeCompBuild.EncodeAllKept` | src/vend/range_com_vend.cpp:96-104 | all of them are, and the retired codes are kept |
| `RangeCompBuild.BuildEncoding` | src/vend/range_com_vend.cpp:6-108 | the build ends, retires exactly the unique finished set, and leaves every retired vertex with the code of its list at its turn and every other with the code of what remains of its list |
| `RangeCompBuild.Combine` | src/include/encode/single/range_encode.h:13-21 | why the smaller of two one-sided answers is right for retired, unretired and mixed pairs |
| `RangeCompBuild.BuiltSound` | src/vend/range_com_vend.cpp:6-108 | in every built state no query about two distinct ids contradicts the graph, a retired endpoint makes the answer certain, and it is uncertain iff both sides are |
| `RangeCompBuild.Query` | src/include/encode/single/range_encode.h:13-21 | the query method of the encoder, called after a build, is right about the graph |
| `Varint.OneCodeIsLeb` | src/include/encode/codec/varint_codec.h:35-70 | every branch of the encoder stores unsigned LEB128, section 7.6 of DWARF Version 5, in the length the length function gives |
| `Varint.WriteOne` | src/include/encode/codec/varint_codec.h:35-70 | appends the LEB128 bytes of one value |
| `Varint.EncodeArray` | src/include/encode/codec/varint_codec.h:24-73 | writes the LEB128 stream of the values or of their differences modulo 2^32, and its length |
| `Varint.ReadFast` | src/include/encode/codec/varint_codec.h:337-372 | the unrolled reader reads one value |
| `Varint.ReadSlow` | src/include/encode/codec/varint_codec.h:416-424 | so does the byte-wise one |
| `Varint.Decode` | src/include/encode/codec/varint_codec.h:325-427 | a stream decodes to its values or their running sums, across fast loop and slow tail |
| `Varint.RestoredStored` | src/include/encode/codec/varint_codec.h:24-30 | running sums modulo 2^32 undo differences modulo 2^32, for all word sequences |
| `Varint.RoundTrip` | src/include/encode/codec/varint_codec.h:24-427 | encoding and decoding gives back every sequence of words in both modes |
| `Varint.GetEncodeLength` | src/include/encode/codec/varint_codec.h:546-556 | the number of bytes the encoder writes |
| `Varint.ParseEncode` | src/include/encode/codec/varint_codec.h:558-572 | per entry the byte counts of difference and value, and the exact length of the stream so far |
| `Varint.FindGaps` | src/include/encode/codec/varint_codec.h:136-323 | on the gap stream of any nonempty increasing list: exists, below the minimum, above the maximum or between, exactly, though the tail compares with the last gap |
| `Varint.FindValues` | src/include/encode/codec/varint_codec.h:240-323 | on the plain stream of any increasing list: exists, or not exists when an entry is above, or above the maximum |
| `Varint.Find` | src/include/encode/codec/varint_codec.h:135-323 | both modes |
| `CountingFilter.BFilterIntEncode.constructor` | src/include/encode/bfilter/bfilter_int_encode.h:19-22 | all counters zero |
| `CountingFilter.Ordered` | src/encode/bfilter/bfilter_int_encode.cpp:15-16 | an edge is the same whichever endpoint is named first |
| `CountingFilter.BFilterIntEncode.EdgeSet` | src/encode/bfilter/bfilter_int_encode.cpp:24-30 | each counter grows by the number of the edge's hashes on it, modulo 2^32 |
| `CountingFilter.BFilterIntEncode.InsertPair` | src/encode/bfilter/bfilter_int_encode.cpp:32-34 | the same |
| `CountingFilter.BFilterIntEncode.DeletePair` | src/encode/bfilter/bfilter_int_encode.cpp:36-44 | each counter shrinks by the number of 32-bit hashes on it, not below zero |
| `CountingFilter.BFilterIntEncode.NEpairTest` | src/encode/bfilter/bfilter_int_encode.cpp:13-22 | NonNeighbor iff some counter of the edge is zero, else Uncertain |
| `CountingFilter.DeleteUndoesIff` | src/encode/bfilter/bfilter_int_encode.cpp:36-44 | a delete undoes an insert iff no hash of the edge is cut off at 32 bits |
| `CountingFilter.CountersExact` | src/encode/bfilter/bfilter_int_encode.cpp:24-44 | over every run of inserts and deletes of present edges, none overflowing and no delete cut off, each counter is the number of (present edge, hash) pairs on it |
| `CountingFilter.WideCounter` | src/encode/bfilter/bfilter_int_encode.cpp:36-44 | a counter past slot 2^32 is too high by all that was deleted from it |
| `CountingFilter.TestExact` | src/include/encode/bfilter/bfilter_encode.h:34-36 | after such a run an edge tests NonNeighbor iff one of its hashes, with its own pair of factors in 64 bits modulo the size, equals no hash of a present edge |
| `CountingFilter.CountersExactIff` | src/encode/bfilter/bfilter_int_encode.cpp:24-44 | after a run without overflow all counters are exact iff no delete of the run cut off a hash |
| `CountingFilter.HistoryForgottenIff` | src/encode/bfilter/bfilter_int_encode.cpp:24-44 | the counters are those of just inserting the edges left over, in any order, iff no delete of the run cut off a hash |
| `CountingFilter.PresentNeverExcluded` | src/encode/bfilter/bfilter_int_encode.cpp:13-44 | no present edge ever tests NonNeighbor, wide deletes or not, as long as none strays onto a slot of an edge |
| `CountingFilter.SoundIff` | src/encode/bfilter/bfilter_int_encode.cpp:13-44 | over all runs on a graph's edges no present edge tests NonNeighbor iff no delete of an edge lowers a slot of an edge more often than its insert raised it |
| `CountingFilter.SmallFilterSound` | src/include/encode/bfilter/bfilter_int_encode.h:19 | up to 2^32 slots that condition holds |
| `CountingFilter.LargeFilterUnsound` | src/include/common/hash_config.h:22-45 | with 988490691 vertices, K = 5 and the first hash function a legal run of three operations makes a present edge test NonNeighbor |
| `RangeEncoder.SortBounded` | src/encode/single/range_encode.cpp:55 | sorting keeps the entries and makes distinct ids strictly increasing |
| `RangeEncoder.ChooseWidest` | src/encode/single/range_encode.cpp:66-79 | the first window of K-1 entries with the largest span in the list padded by 0 and V+1 |
| `RangeEncoder.RangeEncode.constructor` | src/include/encode/single/range_encode.h:10 | one buffer per vertex, all apart |
| `RangeEncoder.RangeEncode.PutWord` | src/encode/single/range_encode.cpp:61-63 | replaces one 32-bit word and no other |
| `RangeEncoder.RangeEncode.WriteWhole` | src/encode/single/range_encode.cpp:58-63 | flag 1, the list, zeros |
| `RangeEncoder.RangeEncode.WriteWindow` | src/encode/single/range_encode.cpp:81-88 | flag 0 and the window, sentinels included |
| `RangeEncoder.RangeEncode.EncodeVertex` | src/encode/single/range_encode.cpp:54-90 | any list of distinct ids, in any order: the words are the sorted list, or its widest window |
| `RangeEncoder.RangeEncode.HoldsWord` | src/encode/single/range_encode.cpp:17-33 | the loop over the words finds the value iff it is stored |
| `RangeEncoder.RangeEncode.NonNeighborTest` | src/encode/single/range_encode.cpp:13-36 | the one-sided answer of the words |
| `RangeEncoder.RangeEncode.NEpairTest` | src/include/encode/single/range_encode.h:13-21 | the smaller of both one-sided answers |
| `RangeEncoder.WholeWordsExact` | src/encode/single/range_encode.cpp:16-21 | a list that fits is answered exactly by membership |
| `RangeEncoder.WindowWordsExact` | src/encode/single/range_encode.cpp:22-35 | a stored window answers by membership for every id from its first to its last word, and Uncertain for all others |
| `RangeEncoder.WordsSound` | src/encode/single/range_encode.cpp:13-36 | the stored words never contradict the list, for all ids, and decide every id when the list fits |
| `RangeEncoder.RangePairSound` | src/include/encode/single/range_encode.h:13-21 | two codes of full lists never contradict the edge, one short list makes the answer exact, and it is uncertain iff both sides are |

## Left out

- HybridBuild.BuildEncoding: takes the result of sorting by degree as an argument, any order of ties; needs a maximum degree above MAX_INTEGER_SIZE, since the loop bound reads past `bin` otherwise, and harmless degree gaps, since `Peeling.FillIff` shows the bucket starts wrong otherwise.
- HybridEncoder.HybridEncode.EncodeVertex: asks for a cleared buffer, because the decodable branch does not clear it; each vertex is encoded once.
- HybridEncoder.HybridEncode.DynamicChoose: maximises the computed scores, as the source does; for rightmost windows these rest on a count off by at most one slot (`HybridCode.CountedSlots`), because the counter is not slid to the last window and the reverse rebuild stops one entry short.
- BitSet.BitSetSIMD.BlockSet: only for begin below 2048, because the source holds the byte index in eight bits; K is at most 64 throughout.
- HashCounting.HashCount.GetVal: only for a nonempty hash part, because the source indexes an empty copy otherwise.
- ByteStream.Decode: the source's `|` of a shifted word with seven fresh bits is modelled by addition, which is the same on disjoint bits; likewise in Varint.Decode.
- Varint.Find: in delta mode only for nonempty lists, because the source reads a first value unasked.
- BitSet.BitSetSIMD.BlockGet: computes the shift count of the leading byte in unbounded integers. The source computes `block_size - 8 + MOD8(begin)` from an unsigned 32-bit difference, so for a field of fewer than eight bits that crosses a byte, such as the block count when LOG_K is 6, the count is 2^32 too large and the shift undefined in C++; the model takes its low bits, as common processors do.
- CountingFilter.SoundIff: at most 2^14 hash functions; the source has tables for sixty.
- RangeEncoder.RangeEncode.EncodeVertex: needs K at least 3, because the source reads the entry before the list's first otherwise.
- RangeCompBuild.BuildEncoding: covers the delta-byte codec; ids and V+1 are below 2^28, and `ByteStream.CodableIff` shows larger ids have no code.
- V+1 is assumed to fit 32 bits in every encoder, and 64-bit products of the filter's hash wrap as in the source.
- The database branches of both builds, persistence, graph loading, timers, logging and the command line: input and output.
- Hybrid and range `InsertPair` and `DeletePair`: they re-encode without clearing the decodable form, from lists read out of a database or by a function without a final return.
- `BitsComp::Encode`, `DynamicEncode` and `Find`: the offset is not advanced between minimum and maximum; only its cost is modelled.
- `VbyteComp::DynamicEncode`: its score reads one entry past the list.
- `CBFilterEncode`, `CountEncode`, the plain and blocked bit filters, bit-hash, the directed hybrid form and the SIMD delta codecs: easier forms of the same arguments, or code resting on headers that are not part of this model.
- The logical-address variants of the varint encoder and decoder: the same bytes through one more indirection.
- The THRESHOLD, VARY_K and directed-graph build variants, and OpenMP parallelism.
- Floating-point `log2`: replaced by the integer inequalities it stands for.
