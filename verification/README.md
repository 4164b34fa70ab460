# xs: a verified model of its algorithms

A Dafny model of the parts of xs whose correctness is not obvious: the DEFLATE and zlib codec of miniz on both
sides, the khash table with its in-place rehash, the multi-threaded queue, the quicksort behind `xs_arr`, the
write side of a connection with its cache, the ZIP directory index, and the checksums and digests. Every
algorithm that works in place is a method over arrays or a class; each one is proved against a specification
that does not share its code, and the specifications are related to each other by lemmas.

The main results:

- What tdefl writes, tinfl reads. For every source, every parameter and every sequence of calls and flushes, raw or
  in the zlib format, through a callback or into buffers of any sizes that fill up and are emptied, the compressed
  bytes stand for exactly the source under a reference decoder written after RFC 1951 and RFC 1950, and tinfl gives
  the source back, whatever bytes follow (`CompressAndDecompress`, `CompressPiecesAndDecompress`). Repeating the
  last call always ends (`Drain`). A flush gets everything out, up to a whole byte, and what follows a full flush
  can be read without what was before (`Compressor.Compress`).
- tinfl does exactly what a specification over bits says that accepts what tinfl accepts, on every input and every
  memory, down to which of input, room and validity comes to an end first (`Inflater.Decompress`). Where that reader
  takes nothing beyond the standard it is the reference decoder, in both directions (`InflatedAgrees`), and no input
  makes it leave its memory exactly if three spare bytes are kept behind the announced end (`ThreeSpareBytes`). The
  reference decoder takes one thing that section 3.2.7 of RFC 1951 allows for distances only: literal/length and
  code-length codes of a single code word. One stream with all three kinds of blocks, byte for byte, fixes what both
  sides share (`ReadsText`).
- The code lengths are optimal, none exceeds 22, and limiting them to 15 costs hardly anything: at most as many bits
  in 512 symbols as the alphabet has symbols, and a few more. From this follows that no block, with the empty stored
  block of a flush behind it, ever overruns the output buffer (`CalculateMinimumRedundancy`, `OptimizeHuffmanTable`,
  `DynamicFits`).
- A rehash in place loses and duplicates nothing, and every search ends (`KickOut`, `Resize`, `Get`, `Put`).
- The queue is safe in exactly the runs without one kind of step, and the hazards behind that step are named; one
  pusher and one popper are safe always (`SafeRuns`, `OnlyHazards`, `PairSafe`). In every run, safe or not, a push
  returns having stored its value once, or having seen the queue full (`PushStores`, `PopTakes`).
- A write through the cache keeps the order of all bytes, whatever the socket does, exactly if it fits; and purging
  gets them all to a socket that takes at least a byte at a time (`ConservedExactly`, `RunArrives`).

## Structure

| part | modules |
|---|---|
| bit strings | Bits, BitWriting, BitReading |
| canonical codes and their tables | Canonical, InflateTable, HuffTables, TableWalks, HuffDecoding |
| code lengths | RadixSort, SymbolsInUse, MinRedundancy, Optimality, LengthLimit, LengthLists, CodeSizeLimit, LimitCost, TableCost, HuffmanCodes |
| the format | LzCodes, RunPacking, DeflateSpec, DeflateBlocks, BlockForms, ZlibSpec |
| tdefl | LzParse, HashChains, SymbolCounts, LzBuffers, BlockWriting, DynamicHeader, BlockSize, BlockOutput, Restarting, Compression |
| tinfl | Lenient, ReferenceSteps, LenientAgrees, Inflating, ZlibInflate, InflateLimits |
| both together | StreamExample, RoundTrips |
| khash | Probing, PackedFlags, RoundingUp, HashSpec, Rehashing, KHash |
| the queue | QueueSteps, QueueCalls |
| sorting | SortSpec, QuickSort |
| connections | GrowArrays, WriteSpec, Connections |
| ZIP directory | ZipNames, ZipIndexes |
| checksums and digests | CrcSpec, Crcs, Adlers, DigestSpec, Sha1, Md5 |

## Model

| member | source | states |
|---|---|---|
| RoundTrips.CompressAndDecompress | xs/miniz_116.c:1772-1777 | decompressing what was compressed in one call gives back the source and uses up exactly the stream's bytes: for every source, parameters, raw or zlib, and any bytes behind |
| RoundTrips.CompressPiecesAndDecompress | xs/miniz_116.c:2679-2733 | the same for a stream made in any number of calls with any flushes between them, through a callback or into buffers of any sizes |
| RoundTrips.CompressMem | xs/miniz_116.c:2769-2776 | the bytes put out are a complete stream that stands for the source |
| RoundTrips.CompressPieces | xs/miniz_116.c:2679-2733 | whatever is offered in whatever pieces, the bytes given at the end are a complete stream for all of it; with the callback, a decoder that starts behind a full flush with nothing before it gets the rest |
| RoundTrips.Drain | xs/miniz_116.c:2658-2677 | repeating the last call ends if every buffer has room for a byte, and all that was offered is in the stream |
| RoundTrips.DecompressMem | xs/miniz_116.c:1772-1777 | what comes out is what the lenient reader comes to, from whatever the memory held; it keeps to the standard exactly if the reference decoder reads the stream and its output fits; then the same bytes come out, and if the output does not fit, that is what is reported |
| RoundTrips.DecompressZlibMem | xs/miniz_116.c:1772-1777 | the same for zlib streams |
| RoundTrips.CompleteReads | xs/miniz_116.c:1703-1706 | a complete raw stream is read as what it stands for whatever follows, and its last bit lies in its last byte |
| RoundTrips.CompleteZlibReads | xs/miniz_116.c:1480-1487 | header, blocks and checksum of a complete zlib stream are accepted together, and end with its last byte |
| RoundTrips.ZlibStarts | xs/miniz_116.c:2222-2225 | every complete zlib stream starts with the bytes 0x78 and 0x01 |
| RoundTrips.ReadExample | xs/miniz_116.c:1498-1706 | tinfl reads the example stream of 35 bytes |
| StreamExample.ReadsText | xs/miniz_116.c:1468-1706 | the reference decoder gets exactly one text from 35 given bytes: a stored block, one in fixed codes, and one in dynamic codes whose header repeats lengths in all three ways |
| ZlibSpec.HeaderExamples | xs/miniz_116.c:1489-1493 | the headers of the four usual levels are good; wrong check bits, a dictionary and another method are not |
| Compression.Compressor.constructor | xs/miniz_116.c:2740-2757 | the state before the first call; the two probe counts are positive for every 12-bit value |
| Compression.Compressor.Compress | xs/miniz_116.c:2679-2733 | whatever the sequence of calls and however small the buffers, the bytes given at the end are a stream for all input taken in, in order; a sync or full flush that finds and leaves nothing waiting has taken all input and given a whole number of bytes that stand for it, and from every full flush on the rest can be read alone; input is left only when output waits, and output waits only when the buffer is full; wrong calls are refused; each last call comes nearer to the end |
| Compression.Compressor.CompressNormal | xs/miniz_116.c:2540-2656 | takes in all input and leaves no lookahead on a flush, unless a block does not fit the caller's buffer; keeps window, recorded codes and stream consistent |
| Compression.Compressor.Fill | xs/miniz_116.c:2549-2583 | the ring and its mirror hold the window after any number of new bytes |
| Compression.Compressor.Chain | xs/miniz_116.c:2560-2561 | a place enters its chain: every place but the last two is in the chain of its three bytes, and from each one still in the ring the chain goes on to the one before it |
| HashChains.NothingMissed | xs/miniz_116.c:2342-2368 | a search that has beaten k candidates has found something at least as long as what starts at any earlier place of the window with the same three bytes, unless k or more places of its chain, or one that 16 bits take for none, come before it |
| Compression.Compressor.ParseStep | xs/miniz_116.c:2587-2641 | what is recorded, kept back and passed over is what the lazy rule says of the match found; the codes and the match kept back stand for the bytes passed |
| Compression.Compressor.CurrentMatch | xs/miniz_116.c:2587-2605 | the match is what the search comes up with, or the longest run, or none if it is sifted out, and it reaches neither behind the window nor behind a full flush |
| LzParse.LongerWins | xs/miniz_116.c:2606-2634 | of two matches at neighbouring places the longer one is recorded |
| Compression.Compressor.FlushBlock | xs/miniz_116.c:2205-2304 | after every flush the stream stands for everything recorded; what does not fit the caller's buffer waits, and nothing is dropped |
| Compression.Compressor.FlushOutput | xs/miniz_116.c:2658-2677 | given and waiting bytes stay the stream in order; done exactly if the stream is finished and nothing waits |
| Compression.Compressor.PutTrailer | xs/miniz_116.c:2258-2269 | padding and checksum, or an empty stored block, always fit; the empty block means nothing and ends at a byte |
| Compression.Compressor.Forget | xs/miniz_116.c:2729 | a full flush empties window and chains and leaves a point to start from |
| Restarting.MeansBehind | xs/miniz_116.c:2724-2730 | a block means the same behind anything that ends with what it refers to |
| LzParse.FindMatch | xs/miniz_116.c:2342-2368 | whatever the chains hold, a match returned is longer than the one given, agrees byte for byte and lies in the window; and none of the first candidates of the chain, as many as the probes less one, is longer |
| LzParse.RingPush | xs/miniz_116.c:2558-2573 | storing a byte and its mirror overwrites only what has left the window |
| LzParse.CopyRepeats | xs/miniz_116.c:1689-1699 | copying a true match byte by byte, even into itself, gives the next bytes of the source |
| LzBuffers.LzBuffer.RecordLiteral | xs/miniz_116.c:2510-2516 | the buffer then stands for one literal more, and the counts are exactly those of its codes |
| LzBuffers.LzBuffer.RecordMatch | xs/miniz_116.c:2518-2538 | the same for a match |
| LzBuffers.LzBuffer.Finish | xs/miniz_116.c:2219-2220 | after the last shift the buffer is the byte image of the recorded codes |
| BlockWriting.CompressLzCodes | xs/miniz_116.c:2151-2193 | reading flags and codes back from the buffer, exactly the bits of those codes and of the end of the block are written |
| BlockOutput.PutBlock | xs/miniz_116.c:2230-2256 | whichever form is chosen, the block means the recorded bytes and takes at most 679000 bits, and at most 48 bits more than the bytes themselves while the window holds them |
| BlockSize.DynamicFits | xs/miniz_116.c:2251-2256 | a block in dynamic codes fits whatever the codes in the buffer: the case that the code calls extremely unlikely is impossible |
| BlockSize.FixedFits | xs/miniz_116.c:2041-2056 | so does one in fixed codes |
| BlockSize.BodyCost | xs/miniz_116.c:2151-2193 | the bits of a body are the cost of its symbol counts under the tables, and the extra bits |
| BlockForms.StoredBlock | xs/miniz_116.c:2239-2249 | a stored block adds its bytes to what came before, wherever it starts in a byte |
| BlockForms.FixedBlock | xs/miniz_116.c:2041-2056 | a block in fixed codes adds what its codes stand for |
| BlockForms.DynamicBlock | xs/miniz_116.c:1979-2039 | the header gives back both tables although unused ends are left out, and the block adds what its codes stand for |
| DynamicHeader.StartDynamicBlock | xs/miniz_116.c:1979-2039 | tables for exactly the symbols that occur, close to the best, and the header that describes them |
| BitWriting.BitWriter.PutBits | xs/miniz_116.c:1949-1958 | the bits are appended, least significant first; nothing is lost before the buffer is full |
| RunPacking.PackCodeSizes | xs/miniz_116.c:1960-2023 | expanding the packed runs gives back the lengths, and the counts are those of the tokens |
| DeflateBlocks.ReadTokens | xs/miniz_116.c:1564-1581 | the reader's expansion of the written tokens gives the lengths they stand for |
| DeflateBlocks.SendingOrder | xs/miniz_116.c:1472 | the lengths of the code-length code come in the one order in which 16, 17, 18 and 0 lead and the others follow from the middle outwards |
| HuffmanCodes.OptimizeHuffmanTable | xs/miniz_116.c:1914-1947 | lengths for exactly the symbols in use, accepted by tinfl, no longer for a more frequent symbol, canonical codes; with the limit at 15 close to the cost of every alternative table |
| HuffmanCodes.OptimizeStaticTable | xs/miniz_116.c:1914-1920 | canonical codes for the given lengths |
| HuffmanCodes.AssignCodes | xs/miniz_116.c:1939-1946 | every symbol in use gets its canonical code word, bit-reversed |
| TableCost.CloseEnough | xs/miniz_116.c:1931-1937 | for any other table that fits the code space, the limited one costs at most (symbols + a small constant) / 512 bits more for each occurrence |
| LimitCost.LimitedCost | xs/miniz_116.c:1901-1912 | the price of the limit, for sorted weights and their lengths |
| CodeSizeLimit.EnforceMaxCodeSize | xs/miniz_116.c:1901-1912 | as many codes as before, none above the limit, the code space filled exactly; only the longest of the short enough codes change |
| LengthLists.TopIsLong | xs/miniz_116.c:1907-1911 | a code that gives way to others is never a short one when there are few codes |
| Optimality.CalculateMinimumRedundancy | xs/miniz_116.c:1879-1897 | in place, ascending weights become lengths that fill the code space, descend, cost least, do not exceed 22, and are short where the weight is large |
| Optimality.Cheapest | xs/miniz_116.c:1879-1897 | no other lengths that satisfy Kraft's inequality cost less than those of the tree |
| Optimality.AtMost22 | xs/miniz_116.c:1899-1900 | positive weights with a sum below 65536 give no length above 22, so 32 are enough |
| Optimality.DeepIsLight | xs/miniz_116.c:1884-1888 | a weight at depth l is at most the sum divided by the Fibonacci number l + 1 |
| MinRedundancy.MakeNodes | xs/miniz_116.c:1883-1888 | each node joins the two lightest items, stored where its items are no longer needed |
| MinRedundancy.LeafDepths | xs/miniz_116.c:1890-1896 | every leaf gets one more than the depth of the node that took it |
| SymbolsInUse.SumOverUsed | xs/miniz_116.c:1926-1928 | summing over the symbols in use in sorted order is summing over all symbols |
| RadixSort.RadixSortSyms | xs/miniz_116.c:1862-1877 | a stable sort by count, ending in one of the two arrays |
| Canonical.PrefixFree | xs/miniz_116.c:1939-1946 | no code word is the beginning of another one |
| Canonical.DecodesUnique | xs/miniz_116.c:1451-1464 | a decoder never has a choice |
| Canonical.CompleteDecodes | xs/miniz_116.c:1545-1549 | a complete code has a code word in front of every long enough bit string |
| HuffTables.HuffTable.Build | xs/miniz_116.c:1539-1563 | succeeds exactly for complete codes and those with at most one code word; every code word leads to its symbol, others nowhere wrong, and the tree array suffices |
| HuffTables.FirstCodes | xs/miniz_116.c:1543-1549 | the first code of every length, and the test of the code space in both directions |
| InflateTable.NodeRoom | xs/miniz_116.c:1556-1561 | before a tree node is added there is room for it |
| HuffDecoding.HuffDecode | xs/miniz_116.c:1430-1464 | takes the symbol in front, near the end of the input too, or what a table of one code word makes of other bits; fails exactly if there is neither |
| HuffDecoding.StrayAtHand | xs/miniz_116.c:1451-1464 | bits that are no code word of a one-word table give symbol 0 after as many bits as the walk takes, and whether those at hand are enough |
| TableWalks.LookUpFinds | xs/miniz_116.c:1451-1464 | look-up table and tree lead to the symbol whose code word stands in front |
| DeflateSpec.ReadBody | xs/miniz_116.c:1583-1700 | the bits of a list of codes are read back as those codes, and stand for their bytes |
| Inflating.Inflater.Decompress | xs/miniz_116.c:1498-1706 | for every input, memory and room: done exactly if the lenient reader reaches an end, with the same memory and position; memory is left exactly if that reader leaves it; otherwise the status says what that reader lacks: input, room, or a valid stream |
| LenientAgrees.InflatedAgrees | xs/miniz_116.c:1498-1706 | the lenient reader reaches an end within the standard exactly if the reference decoder reads the stream and the output fits, with the same bytes and position |
| Lenient.StreamStays | xs/miniz_116.c:1638-1695 | with three spare bytes no bits make the lenient reader leave memory, wherever it starts |
| Inflating.Inflater.MatchStep | xs/miniz_116.c:1626-1699 | a length, its distance and the copy are the lenient reader's, with symbols 286 and 287 copying three bytes as the code does |
| Inflating.Inflater.Stored | xs/miniz_116.c:1500-1520 | a raw block's header and bytes, first from the bit buffer and then from the input, end as the lenient reader's |
| Inflating.Inflater.ReadTables | xs/miniz_116.c:1526-1581 | the tables of a dynamic block are those of its header, read leniently, or it is refused exactly if that reading fails |
| InflateLimits.ThreeSpareBytes | xs/miniz_116.c:1638-1695 | for every room and size: no input makes raw decompression leave memory if and only if the size is at least the room and three |
| InflateLimits.ZlibThreeSpareBytes | xs/miniz_116.c:1480-1735 | the same for zlib streams |
| InflateLimits.LeaveMemory | xs/miniz_116.c:1638-1695 | for every room with fewer spare bytes, input on which the decoder itself writes behind memory |
| InflateLimits.ExampleLeaves | xs/miniz_116.c:1638-1695 | decoding three concrete bytes with memory of one byte writes behind it |
| ZlibInflate.DecompressZlib | xs/miniz_116.c:1480-1735 | done exactly if header, lenient reading and Adler-32 are right; memory is left exactly if the lenient reader leaves it; otherwise the status tells which of them is not |
| ZlibInflate.ZlibAgrees | xs/miniz_116.c:1480-1735 | within the standard that is exactly if the reference reader of RFC 1950 accepts the stream and the output fits |
| ZlibInflate.ReadSum | xs/miniz_116.c:1709-1712 | four bytes shifted into a word that starts as 1 are the big-endian number |
| LzCodes.LengthReadsBack | xs/miniz_116.c:1468-1469 | tinfl's base and extra bits give back every length that tdefl writes |
| LzCodes.DistReadsBack | xs/miniz_116.c:1470-1471 | and every distance |
| KHash.HashTable.Get | xs/khash.h:220-233 | ends for every hash function, and finds the key's bucket exactly if the key is there |
| KHash.HashTable.Put | xs/khash.h:297-338 | a new key enters the map, a known one is found, a failed allocation changes nothing; another key's bucket comes back exactly at 2^31 entries |
| KHash.HashTable.Store | xs/khash.h:297-338 | putting a key and setting its value updates the map; at 2^31 entries, and only there, another key's value is overwritten |
| KHash.HashTable.Del | xs/khash.h:339-345 | the entry of a live bucket goes, every other one stays reachable |
| KHash.HashTable.Resize | xs/khash.h:234-296 | the content never changes, and the new size or the refusal are exactly determined |
| KHash.HashTable.KickOut | xs/khash.h:267-283 | the kick-out process ends and keeps pending, placed and held entries together a partition of the map |
| KHash.HashTable.Clear | xs/khash.h:212-219 | an empty map in as many buckets |
| KHash.HashTable.SizeIsCount | xs/khash.h:322-331 | the size field is the number of entries |
| KHash.FullTable | xs/khash.h:297-338 | for every hash function a table with 2^31 entries is reached, and the next new key is not stored |
| HashSpec.BackMeansAll | xs/khash.h:226-229 | a search back at its first bucket has seen all of them |
| Probing.VisitsAll | xs/khash.h:227 | triangular steps visit every bucket of a power of two within as many steps |
| RoundingUp.KRoundUp32 | xs/khash.h:165-166 | the next power of two; zero for zero and above 2^31 |
| PackedFlags.Fill | xs/khash.h:252 | fresh two-bit flags say empty for every bucket |
| QueueSteps.SafeRuns | xs/xs_queue.h:200-279 | a run is safe throughout exactly if none of its steps is bad |
| QueueSteps.StepKeeps | xs/xs_queue.h:200-279 | every step of every thread but the bad ones keeps tickets, values, claims and depth |
| QueueSteps.BadBreaks | xs/xs_queue.h:200-279 | a bad step destroys safety |
| QueueSteps.OnlyHazards | xs/xs_queue.h:221-230 | a step is bad only when a thread was overtaken by a whole lap or a blocking push claims without room, and the latter always is |
| QueueSteps.FirstInFirstOut | xs/xs_queue.h:200-279 | without these, what is popped is what was claimed first, in that order |
| QueueSteps.NonblockingSafe | xs/xs_queue.h:200-279 | if no push is called to block and nobody is overtaken by a lap, any number of threads is safe |
| QueueSteps.PairSafe | xs/xs_queue.h:200-279 | one pusher and one popper are safe in every run, blocking or not |
| QueueCalls.PushStores | xs/xs_queue.h:200-256 | in every run a push stores its value once and then returns, or, without blocking, returns having just seen the queue full |
| QueueCalls.PopTakes | xs/xs_queue.h:258-279 | in every run a pop returns with one value, or having just seen the queue empty, or, without blocking, having lost its exchange |
| QueueCalls.QuietPush | xs/xs_queue.h:200-256 | a push alone stores its value if there is room, and otherwise changes nothing |
| QueueCalls.QuietPop | xs/xs_queue.h:258-279 | a pop alone takes the oldest value, or changes nothing if there is none |
| QueueCalls.BlockedPushesHide | xs/xs_queue.h:221-230 | a run of two blocking pushes after which a full queue looks empty |
| QueueCalls.OvertakenPopsTwice | xs/xs_queue.h:258-279 | a run without blocking in which a popper overtaken by a lap pops a value twice, and the next one never |
| QuickSort.QSort | xs/xs_arr.h:178-270 | sorts any array by any total preorder, permutes it under any comparison, and never outgrows its stack of 64 |
| QuickSort.Partition | xs/xs_arr.h:229-247 | splits around the pivot within bounds, whatever the comparison answers |
| QuickSort.InsertionSort | xs/xs_arr.h:193-211 | sorts short segments and keeps the rest |
| WriteSpec.ConservedExactly | xs/xs_connection.h:1349-1407 | the order of all bytes survives every behaviour of the socket exactly if the write fits the cap and an int |
| WriteSpec.NothingLost | xs/xs_connection.h:1349-1407 | beyond the cap the order may go but no byte is lost or made up |
| WriteSpec.RunConserves | xs/xs_connection.h:1349-1407 | over any sequence of writes, sent and cached bytes are the reported ones in order |
| WriteSpec.PurgeSends | xs/xs_connection.h:1309-1325 | one send is offered the whole cache; what it takes leaves the cache from the front |
| WriteSpec.PurgesEmpty | xs/xs_connection.h:1309-1325 | if every send takes a byte, as many purges as there are cached bytes empty the cache |
| WriteSpec.RunArrives | xs/xs_connection.h:1309-1407 | after any run of writes that fit, purging gets everything reported to such a socket, in order |
| WriteSpec.WriteSends | xs/xs_connection.h:1384-1400 | with nothing cached, one send is offered all, and the rest is kept whole or not at all |
| WriteSpec.WriteWaits | xs/xs_connection.h:1326-1344 | behind cached bytes that are not to be sent now, the new ones are kept without a send |
| WriteSpec.WriteThrough | xs/xs_connection.h:1326-1407 | to a socket that takes everything the cached bytes go first, and the new ones behind them |
| Connections.Connection.WriteBytes | xs/xs_connection.h:1349-1407 | the method is the specified write, for every socket |
| Connections.Connection.CachePurge | xs/xs_connection.h:1309-1325 | one send is offered the cache: what it takes is taken and leaves the cache, and 0 is returned exactly if that is all of it |
| Connections.Connection.CacheFill | xs/xs_connection.h:1326-1344 | keeps bytes only within the cap, and never bytes that lie in the cache |
| GrowArrays.GrowArray.Add | xs/xs_arr.h:45-46 | appends, or leaves the elements as they are |
| GrowArrays.GrowArray.Remove | xs/xs_arr.h:42-42 | takes out exactly the named elements |
| ZipIndexes.ZipReader.SortByName | xs/miniz_116.c:3197-3236 | in-place heapsort: every entry once, in the order of the names |
| ZipIndexes.ZipReader.BinarySearch | xs/miniz_116.c:3546-3567 | finds an entry of that name exactly if there is one |
| ZipIndexes.ZipReader.Locate | xs/miniz_116.c:3569-3606 | both ways of searching find a match exactly if there is one, for names whose length survives 32 bits |
| ZipIndexes.AgreeExactly | xs/miniz_116.c:3569-3606 | the two ways of searching agree on every directory exactly for those names |
| ZipIndexes.BaseIsLast | xs/miniz_116.c:3591-3602 | a name without its path is what follows the last slash, backslash or colon |
| ZipNames.FoldJoins | xs/miniz_116.c:3017 | two characters are taken for one exactly if they are the same or one of the 26 letters in both cases |
| Crcs.Crc32 | xs/xs_crc.h:473-516 | slicing by eight, in either byte order, is the bitwise CRC of RFC 1952 |
| Crcs.MakeTables | xs/xs_crc.h:182-203 | the documented generator yields the tables that the loop needs |
| Crcs.MzCrc32 | xs/miniz_116.c:1042-1050 | two nibbles at a time give the same CRC |
| CrcSpec.CrcConcat | xs/xs_crc.h:473-476 | a CRC taken piece by piece is the CRC of the whole |
| CrcSpec.Residue | xs/xs_crc.h:474-516 | data with its own CRC behind it has the same CRC whatever the data |
| CrcSpec.CheckValue | xs/xs_crc.h:474-516 | the check value of this CRC |
| CrcSpec.BurstDetected | xs/xs_crc.h:473-516 | changing up to four adjacent bytes always changes the CRC |
| Adlers.MzAdler32 | xs/miniz_116.c:1026-1039 | with the remainders put off, the checksum of RFC 1950 |
| Adlers.BlockFits | xs/miniz_116.c:1028 | 5552 bytes never overflow 32 bits, and 5553 can |
| Adlers.BasePrime | xs/miniz_116.c:1036 | the modulus is a prime |
| Adlers.NoLargerPrime | xs/miniz_116.c:1036 | and no number between it and 65536 is one |
| Adlers.AdlerExample | xs/miniz_116.c:1026-1039 | the checksum of a known text |
| Adlers.AdlerConcat | xs/miniz_116.c:1026-1039 | checksumming in pieces is checksumming the whole |
| Sha1.Context.Update | xs/xs_sha1.h:145-163 | however a message is split, the state is that of one call |
| Sha1.Context.Final | xs/xs_sha1.h:165-187 | the digest is that of the padded message |
| Sha1.InitBytes | xs/xs_sha1.h:137-141 | the words it starts with are those of RFC 3174 |
| Sha1.PaddedExample | xs/xs_sha1.h:165-187 | the padding of a known message |
| Md5.State.Append | xs/xs_md5.h:418-453 | however a message is split, the state is that of one call |
| Md5.State.Finish | xs/xs_md5.h:455-475 | the digest is that of the padded message |
| Md5.InitBytes | xs/xs_md5.h:409-416 | the words it starts with are those of RFC 1321 |
| Md5.PaddedExample | xs/xs_md5.h:455-475 | the padding of a known message |

## Findings

Where the code does less than it seems to promise, the model keeps the code and states when it does what it should.

- A push that blocks does not wait for room. Its `continue` sits in a do-while loop, so it goes on to the exchange
  in the loop's condition (xs/xs_queue.h:221-230). With two pushers the queue can then be full and look empty, and
  values that were pushed are never popped (`BlockedPushesHide`). `OnlyHazards` says when this happens;
  `NonblockingSafe` and `PairSafe` say how to avoid it.
- When an overtaken thread's exchange succeeds, a value is popped twice and another one never, without any push that
  blocks (`OvertakenPopsTwice`).
- A write keeps the order of all bytes and reports their number, whatever the socket does, exactly if it fits the
  cache's cap and an int (`ConservedExactly`). When the cache cannot hold what the socket leaves, later bytes can
  overtake earlier ones, though none is lost (`NothingLost`); when a write of more than an int's worth of bytes meets
  a socket that closes after the first part, 0 is reported for bytes that were sent.
- The binary search of the ZIP directory cuts the name's length to 32 bits. It agrees with the scan exactly for
  names that this does not touch, or whose cut is too long for any entry (`AgreeExactly`).
- With 2^31 live entries kh_put returns another key's bucket and stores nothing (`Put`, `FullTable`).
- tinfl accepts length symbols 286 and 287, which the standard forbids, and copies three bytes without testing for
  room (xs/miniz_116.c:1638-1695). No input makes it write behind the memory it was given if and only if three spare
  bytes follow the announced end (`ThreeSpareBytes`, `ZlibThreeSpareBytes`); with fewer there is input that does, for
  every room (`LeaveMemory`, `ExampleLeaves`). Distance symbols 30 and 31 copy from distance zero, and a table with a
  single code word takes other bits for symbol 0 (`StrayAtHand`).
- Chains keep places in 16 bits, and 0 stands for none. So a search never sees a place whose number is a multiple of
  65536, nor any that come behind it in its chain (`NothingMissed`); what is compressed stays right.
- The code's fallback for a dynamic block that does not fit is never needed (`DynamicFits`).

## Left out

- CompressAndDecompress: models the portable loops of tdefl; `tdefl_compress_fast`, which little-endian builds choose for one probe and greedy parsing, and the 16- and 64-bit unaligned reads are not modelled.
- Decompress: models one call with all input and a non-wrapping output buffer; suspending and resuming it over pieces of input, and the wrapping 32 KB output window, are not modelled.
- Compress: models fewer than 2^32 blocks, after which the 32-bit m_block_index is zero again and a zlib header would be written in mid-stream (xs/miniz_116.c:2222, 2283); a callback that fails is not modelled.
- CompressPieces: that buffers of different sizes lead to the very same bytes is not stated, only that the bytes are a complete stream for the same source.
- Update: requires, as SHA1Update needs for its copy to stay in its buffer, that the bytes waiting and the new length together stay below 2^32.
- Append: requires, as md5_append needs for its sum not to overflow, that the bytes waiting and the new length together fit an int.
- SafeRuns: every access to shared memory is one step in one order for all threads; weaker memory orders, the thread pool around the queue and its waiting are not modelled.
- WriteBytes: TLS, corking and the chunked, header and file variants of writing are not modelled; the socket answers arbitrarily.
- MakeSpace: sizes stay below 2^30, where the source's int arithmetic does not overflow, and growing memory that is already there succeeds.
- Shrink: reallocating to fewer buckets is taken to succeed, as the code does.
- Digest: the compression functions of SHA-1 and MD5 are parameters; their rounds are not modelled.
- Locate: entries are given by name, comment and order; parsing the central directory is not modelled.
- The PNG writer, ZIP reading and writing beyond the index, timestamps, custom allocators and the mz_stream layer are not modelled.
- The HTTP, WebSocket, SSL and file parts of xs are not modelled.
