# A verified model of the compression code

Dafny modules that model the parts of this repository where data must survive a round trip, and prove that it does:
the LZMA coder and the bag-of-cells writer of the evolving solver, the arithmetic coder, transforms, compiler and
predictor of libzpaq, the bit shuffle with its chain of threads, and the crossover of genes. `dafny verify
dfyconfig.toml` checks everything.

What updates state in place is a class or a method over arrays; each such method is proved against a function of
its inputs, and the properties are proved about these functions.

- **LZMA** (`solution_evolve_lzma_separate_header.cpp`). `RangeCoder` has the encoder and decoder as functions on
  states, with the carry, the pending bytes and the six normalizations of the end. The unbounded low end of the
  coding interval is what the output must lie above, and a run of symbols is decoded because everything that is
  written later stays inside. `LzmaFields`, `LzmaDistances`, `LzmaPackets` and `LzmaStream` build packets from
  symbols; `RangeEncoders`, `RangeDecoders`, `LzmaSearch`, `LzmaEncoder`, `LzmaDecoder` and `LzmaFormat` are the
  running program, from the hash table to the 13 byte header. `LzmaRules` says in numbers what the symbols of the
  format are, the twelve states among them, which follow from the history of packets.
- **Bag of cells** (the same file). `BagTopology` orders cells, `BagGraph` renumbers them, `BagBits` and
  `BagFormat` are the bytes, which `BagRules` has place by place, `BagCodec` the program that permutes, writes and
  reads back. A cell stands for what it unfolds to, so that the same graph means the same tree.
- **ZPAQ** (`libzpaq.cpp`, `libzpaq.h`). `ZpaqCoder`, `ZpaqDecoding`, `ZpaqSegments`, `ZpaqMachines` and
  `ZpaqRoundTrip`: the 32-bit coder over any predictor, over the segments of a block, and `ZpaqRules` its numbers.
  `ZpaqSkip`: finding the end of a segment without decoding it. `ZpaqlJumps` and `ZpaqlCompiler`: structured jumps.
  `ZpaqPredictor` and `ZpaqPredictors`: the bounds of every learned number over all runs; `ZpaqLearning`: what is
  put out and learned, and that learning goes toward the bit. `Bwt`, `BwtMachine`: the transform and the two
  programs that undo it. The `Lz77` modules: search and what it misses, the scan, both code formats, the two
  decoding programs. `E8e9` and `BwtFiltered`: the filter for x86 addresses and the programs that undo it, in place
  and in one register. `Heapsort`: the heapsort of the suffix sorter.
- **Bit shuffle** (`bitshuffle_core.c`, `iochain.c`). `BitTranspose`, `BitShuffle`, `BitBlocks`: the plain form,
  its inverse, and whole buffers. `BitVectors`, `BitFast`: the forms with 16-byte registers. `IoChain`: threads
  handing input and output positions on around a ring of 33 locked slots, as interleaved steps. `BlockChain`: the
  blocks of a buffer done by such threads.
- **Genes** (`solution_evolve_lzma_separate_header.cpp`). `Crossover`: partially mapped and order crossover.

## Model

| member | source | states |
|---|---|---|
| RangeCoder.StepNests | solution_evolve_lzma_separate_header.cpp:65-125 | Whatever symbol is coded, the new interval lies inside the normalized old one, and the encoder keeps its shape: low below 2^33, and no carry can meet a pending byte that would overflow. |
| RangeCoder.ShiftLowValue | solution_evolve_lzma_separate_header.cpp:65-85 | Normalizing multiplies the unbounded low end that the written and pending bytes stand for by exactly 256: no carry is lost through a run of 255s. |
| RangeCoder.FinishValue | solution_evolve_lzma_separate_header.cpp:87-94 | Terminating writes the low end of the interval, exactly, and one zero byte; the first byte of all is zero. |
| RangeCoder.FinalInInterval | solution_evolve_lzma_separate_header.cpp:59-125 | From any state of the encoder, all that it will have written once the remaining symbols are coded lies inside its present interval. |
| RangeCoder.EncodedLength | solution_evolve_lzma_separate_header.cpp:47-125 | A run with n normalizations writes n + 6 bytes, and begins with a zero byte. |
| RangeCoder.SignTestCompares | solution_evolve_lzma_separate_header.cpp:891-904 | The sign bit of the wrapped difference, by which the decoder reads a bit of fixed probability, is the comparison with half of the range. |
| RangeCoder.StepBack | solution_evolve_lzma_separate_header.cpp:65-125 | One decoding step gives back the bit that was coded, and leaves decoder and encoder with the same range, the same probabilities, and a code that is the final value less the low end. (Also lines 864-921.) |
| LzmaRules.AdaptiveShare | solution_evolve_lzma_separate_header.cpp:109-125 | The interval of a bit is shared in 2048 equal parts of its width, rounded down: a 0 keeps as many at the low end as its probability tells, a 1 all that is above them. |
| LzmaRules.AdaptiveMove | solution_evolve_lzma_separate_header.cpp:109-125 | Probabilities begin at one half; a 0 takes one a 32nd, rounded down, of the way to 2048, a 1 a 32nd of the way to 0, and no other changes. |
| LzmaRules.DirectShare | solution_evolve_lzma_separate_header.cpp:96-108 | A bit without a probability: a 0 keeps the lower half of the interval, rounded down, a 1 as much above it. |
| LzmaRules.NormalizedBelow | solution_evolve_lzma_separate_header.cpp:65-85 | A byte leaves exactly when less than 2^24 is left of the range, which then is 256 times as great. |
| RangeCoder.RoundTrip | solution_evolve_lzma_separate_header.cpp:65-153 | Any list of symbols under any contexts is decoded from any input that begins with its coded form: same bits, same tables and range at the end, no input overflow, one byte left unread. (Also lines 864-953.) |
| LzmaBits.ReadTree | solution_evolve_lzma_separate_header.cpp:126-136 | The tree coder reads back the number that was coded bit by bit from the top. (Also lines 923-936.) |
| LzmaBits.ReadMatched | solution_evolve_lzma_separate_header.cpp:137-153 | A literal coded against a match byte is read back, though the table half in force changes when the bytes part. (Also lines 937-953.) |
| LzmaRules.FieldSymbol | solution_evolve_lzma_separate_header.cpp:96-153 | Bit k of a number is coded under the number that the bits above it make behind a leading 1; of a literal against a match byte, under that number in the half which the next match bit names, as long as all bits above agree with the match byte. |
| LzmaDistances.ReverseTwice | solution_evolve_lzma_separate_header.cpp:16-24 | Reversing the low bits of a number twice gives it back. |
| LzmaDistances.SlotSplitsDistance | solution_evolve_lzma_separate_header.cpp:597-620 | Every 32-bit distance from 4 on is its slot base and as many free bits as the slot has; the slot is below 64. (Also lines 1102-1118.) |
| LzmaDistances.ReadDist | solution_evolve_lzma_separate_header.cpp:597-620 | A distance is read back from its slot, its fixed-probability middle bits and its reversed low bits. (Also lines 1102-1122.) |
| LzmaPackets.ReadPacket | solution_evolve_lzma_separate_header.cpp:391-630 | From the fields of any well-formed packet the decoder reads that packet, in every state and context. (Also lines 976-1139.) |
| LzmaRules.StateFollowsHistory | solution_evolve_lzma_separate_header.cpp:305-337 | After any run of packets the state is fixed by the history: 0 at the start and after three literals in a row; 7, 8 and 9 right behind a match, a repeat and a repeat of one byte, 3 less with each literal after it; and directly behind another copy 10 for a match and 11 for a repeat of either kind, from which literals lead to 4 and 5. (Also lines 393 and 622.) |
| LzmaRules.UsedMovesToFront | solution_evolve_lzma_separate_header.cpp:499-526 | The distance that a packet uses comes to the front of the four, the others keep their order, and a new one pushes the last one out. |
| LzmaRules.LiteralAgainstMatch | solution_evolve_lzma_separate_header.cpp:573-581 | A literal is coded against the byte at the last distance exactly when it comes directly behind a copy. |
| LzmaRules.ContextInNumbers | solution_evolve_lzma_separate_header.cpp:438-448 | The contexts are the position modulo powers of two and the upper bits of the byte before, 0 at the start. |
| LzmaRules.FlagsOfKind | solution_evolve_lzma_separate_header.cpp:532-572 | The flags in front of a packet, in order: a literal has a 0; a match 1, 0; a repeat of one byte 1, 1, 0, 0; and so on for the four distances, each under the context of its state. |
| LzmaRules.LengthInNumbers | solution_evolve_lzma_separate_header.cpp:581-596 | A length from 2 on is 2, 10 or 18 more than a number of 3, 3 or 8 bits, behind one or two flags; matches and repeats have tables of their own. |
| LzmaRules.SmallDistance | solution_evolve_lzma_separate_header.cpp:597-605 | Below 4 a distance, less 1, is its slot, and nothing follows. |
| LzmaRules.DistanceInNumbers | solution_evolve_lzma_separate_header.cpp:597-621 | From 4 on the slot of a distance names its top bit and the one below; up to slot 13 the others follow reversed, and from 14 on all but the last four as they are, and these reversed. |
| LzmaStream.DecodeRun | solution_evolve_lzma_separate_header.cpp:391-630 | Wherever a run of packets that truthfully describes the input is read, the decoding loop arrives at its end with the described bytes as output and the same state and recent distances. (Also lines 976-1139.) |
| LzmaStream.DecodeInvertsEncode | solution_evolve_lzma_separate_header.cpp:391-630 | For every input and every run of packets that covers it - whatever the match search came up with - the bytes coded for the run, with anything behind them, decode to the input. (Also lines 976-1139.) |
| LzmaStream.StoppedIsDecode | solution_evolve_lzma_separate_header.cpp:976-1139 | However the decoding loop ends - output full, input at its end, end mark, bad distance, no room - its outcome is that of the specification. |
| RangeEncoders.RangeEncoder.StepBit | solution_evolve_lzma_separate_header.cpp:59-85 | The running encoder with its buffer, overflow flag and 64-bit pending counter takes the step of the specification, tables included. (Also lines 109-125.) |
| RangeEncoders.RangeEncoder.Terminate | solution_evolve_lzma_separate_header.cpp:87-94 | After termination the buffer holds the coded run from the start position on, or the overflow flag is set and it would not have fitted. |
| RangeDecoders.RangeDecoder.DecodeBit | solution_evolve_lzma_separate_header.cpp:864-921 | The running decoder takes the step of the specification and notes the bit read. |
| LzmaSearch.HashTable.Update | solution_evolve_lzma_separate_header.cpp:168-197 | A position is entered in the first empty entry of its hash row, else in place of the older one; no other row changes. |
| LzmaSearch.RowHasLatest | solution_evolve_lzma_separate_header.cpp:176-197 | After the positions below n have been entered one by one, a row of the table has exactly the last two of those with its hash, or all of them if there are fewer. (Also lines 526-531.) |
| LzmaSearch.HashTable.Register | solution_evolve_lzma_separate_header.cpp:526-531 | Entering the positions that a packet covers leaves the table with exactly the positions below its end. |
| LzmaSearch.ScoreOrders | solution_evolve_lzma_separate_header.cpp:198-217 | A longer match that is not farther away scores no less, and one longer by six bytes more wherever it is; a single byte counts as 13, which a match of two bytes beats exactly at a recent distance, one of three also within 288 bytes. |
| LzmaSearch.SearchMatch | solution_evolve_lzma_separate_header.cpp:218-243 | The result is nothing or one of the eligible positions tried, with all the bytes that agree there, and no position tried scores better. |
| LzmaSearch.SearchRep | solution_evolve_lzma_separate_header.cpp:245-272 | The result is the longest repeat of at least two bytes at one of the four recent distances, the first of them when tied, within the limit. |
| LzmaSearch.Search | solution_evolve_lzma_separate_header.cpp:274-290 | The better of the two searches by score, the recent distance when tied; it is a true repetition that a packet can carry. |
| LzmaEncoder.LookAhead | solution_evolve_lzma_separate_header.cpp:467-497 | What is made of a match that has been found: the searches one and, for three bytes or more, two bytes later are made, their scores compared, the farther one less 1, and the match kept, put off by one byte, or by two, for which a recent distance may serve; what takes its place is better, and true where it is going to be used. |
| LzmaEncoder.ChooseMatch | solution_evolve_lzma_separate_header.cpp:457-498 | What is used at a position is what was stored for it, or what the search comes to, looked ahead from unless it is near the end; it is true there, and what is stored is true where it will be used. |
| LzmaEncoder.Classify | solution_evolve_lzma_separate_header.cpp:499-526 | The packet chosen says truthfully what comes next, has the length and distance found, and names a recent distance whenever the distance is one. |
| LzmaEncoder.EncodeNext | solution_evolve_lzma_separate_header.cpp:410-630 | One turn of the loop: the packet is one for what is chosen at the position, the run of packets written so far tells the input up to it, the encoder holds exactly its fields, the table exactly the positions passed, and the stored match stays true. |
| LzmaEncoder.EncodeLoop | solution_evolve_lzma_separate_header.cpp:391-630 | The packets written are, one after the other, those for what the search and the look ahead come to; they tell the input from its start, and cover it unless the buffer overflowed. |
| LzmaEncoder.LzmaEncode | solution_evolve_lzma_separate_header.cpp:391-630 | The buffer receives, behind what was there, exactly the coded form of the run to which the search leads, which covers the input; an overflow is reported exactly when that does not fit. |
| LzmaDecoder.ReadPacketBits | solution_evolve_lzma_separate_header.cpp:1031-1122 | Reading bit by bit, the decoder has read exactly the fields that the encoder would code for the packet it returns. |
| LzmaDecoder.CarryOut | solution_evolve_lzma_separate_header.cpp:1123-1135 | Copying byte by byte inside the output buffer gives what the packet means, also where it runs into bytes just written. |
| LzmaDecoder.LzmaDecode | solution_evolve_lzma_separate_header.cpp:976-1139 | On every input, valid or not, the running decoder returns the output or the error of the specification, and has the output in the buffer. |
| LzmaFormat.PacketBits | solution_evolve_lzma_separate_header.cpp:532-621 | No packet takes more than 24 coded bits for each byte it stands for. |
| LzmaFormat.CodedLength | solution_evolve_lzma_separate_header.cpp:391-630 | A run that covers n bytes is coded in at most 24 n + 6 bytes. |
| LzmaFormat.HeaderRoundTrip | solution_evolve_lzma_separate_header.cpp:635-653 | The parser reads back the properties, dictionary size and length that were written, an unknown length among them. (Also lines 1142-1174.) |
| LzmaFormat.ParseHeader | solution_evolve_lzma_separate_header.cpp:1142-1174 | The parser refuses exactly the property bytes from 225 on, and what it accepts are properties the decoder supports. |
| LzmaFormat.HeaderInNumbers | solution_evolve_lzma_separate_header.cpp:635-653 | The header byte by byte: 8, then 2^30 and the length, each with its low byte first, or eight times 255 for an unknown length. |
| LzmaFormat.ParsedInNumbers | solution_evolve_lzma_separate_header.cpp:1142-1174 | From any thirteen bytes: the first is lc + 9 (lp + 5 pb), refused from 225 on; the dictionary has at least 4096 bytes; the length is the number whose low byte comes first, and unknown exactly when all eight are 255. |
| LzmaFormat.Compress | solution_evolve_lzma_separate_header.cpp:655-664 | With 24 n + 19 bytes of room compression succeeds, and otherwise overflow is the only error; on success the buffer has the header and the coded form of the run to which the search leads, and that decompresses to the source in any buffer of at least its size, and is an output overflow in any smaller one. (Also lines 1175-1205.) |
| LzmaFormat.Decompress | solution_evolve_lzma_separate_header.cpp:1175-1205 | On every input the running decompressor returns the output or the error of the specification. |
| BagTopology.CompleteIffAcyclic | solution_evolve_lzma_separate_header.cpp:1977-2023 | An order to which nothing can be added has every cell exactly when the graph has no cycle. |
| BagTopology.TopolOrder | solution_evolve_lzma_separate_header.cpp:1977-2023 | With references in range the queue comes to an end; no cell is put out twice, each only after all its references, none is left that could be put out, and all are exactly when the graph has no cycle. |
| BagGraph.RenumberedUnfold | solution_evolve_lzma_separate_header.cpp:2469-2499 | Renumbering cells and redirecting their references leaves what every cell unfolds to. |
| BagGraph.BuiltIsUnfold | solution_evolve_lzma_separate_header.cpp:2027-2069 | Building cells one by one in a topological order gives, for each, what it unfolds to. (Also lines 2184-2211.) |
| BagGraph.Permute | solution_evolve_lzma_separate_header.cpp:2469-2499 | In the array itself cells are moved to the places of the gene, and references and root follow. |
| BagBits.UnpackedPacked | solution_evolve_lzma_separate_header.cpp:1500-1565 | Cell data of any number of bits are read back from their bytes and the tag bit that ends them. (Also lines 1635-1662.) |
| BagFormat.ByteSizeIs | solution_evolve_lzma_separate_header.cpp:2241-2267 | The width computed for a number is enough for exactly the numbers that need no more bytes. |
| BagFormat.EnoughRefs | solution_evolve_lzma_separate_header.cpp:1871-1874 | When every cell but the root is referred to, there are at least one reference less than cells. (Also lines 2241-2267.) |
| BagFormat.SizesPass | solution_evolve_lzma_separate_header.cpp:1864-1874 | The sizes that are written pass both size checks of the parser. (Also lines 2241-2267.) |
| BagFormat.HeaderParsed | solution_evolve_lzma_separate_header.cpp:1776-1878 | The header that is written is parsed to the counts, widths and size that were written. (Also lines 2269-2336.) |
| BagRules.SerializedInNumbers | solution_evolve_lzma_separate_header.cpp:2241-2267 | The bytes of a written bag by place: magic number, at 4 the width of references, at 5 that of offsets, each the least that will do, then the number of cells, 1, 0, the size of the cells, and the place of the root, counted from the end. (Also lines 2372-2410.) |
| BagRules.SerializedInOrder | solution_evolve_lzma_separate_header.cpp:2330-2358 | Behind the header the cells are written from the last one of the list to the first, with references counted from the end: first the metadata of all, then the data of all. (Also lines 2430-2460.) |
| BagRules.MetaInNumbers | solution_evolve_lzma_separate_header.cpp:1399-1422 | The first byte of a cell has the number of references, the special flag at 8 and the level from 32 on; the second its length in half bytes, odd when the last byte is not full; then each reference, the high byte first. (Also lines 2439-2456.) |
| BagRules.PackedInNumbers | solution_evolve_lzma_separate_header.cpp:1500-1565 | Bit j of byte k of the data, from the top, is bit 8k + j; behind the last one come a 1 and zeros, if the byte is not full. |
| BagFormat.RoundTrip | solution_evolve_lzma_separate_header.cpp:1776-1878 | For a bag of acyclic cells of which every one but the root is referred to, the written bytes, with anything behind them, are read back to what the root unfolds to, whatever topological order is used. (Also lines 2071-2235 and 2241-2467.) |
| BagCodec.Serialize | solution_evolve_lzma_separate_header.cpp:2241-2467 | Writing metadata of all cells and then their data, backwards, gives the bytes of the format. |
| BagCodec.Deserialize | solution_evolve_lzma_separate_header.cpp:2071-2235 | On every input, with any number of roots up to the one allowed, the parser returns the cells of all roots or the error of the format, with an order that is complete exactly when the cells have no cycle. |
| BagCodec.PermuteAndBack | solution_evolve_lzma_separate_header.cpp:2071-2235 | For every such bag and every gene: permuting in place, writing and reading back gives what the root unfolded to before. (Also lines 2241-2499.) |
| Crossover.NotInBacktrack | solution_evolve_lzma_separate_header.cpp:1296-1310 | Walking back along the table never comes upon the same position twice, so that the walk ends. |
| Crossover.WalkIsNew | solution_evolve_lzma_separate_header.cpp:1296-1310 | The walk of one start never enters the chain of an earlier one, although the table has been rewritten. |
| Crossover.PartiallyMappedIsPerm | solution_evolve_lzma_separate_header.cpp:1264-1316 | What partially mapped crossover means - the segment of the first parent, chains, the second parent elsewhere - is always a permutation. |
| Crossover.PMX | solution_evolve_lzma_separate_header.cpp:1264-1316 | For all permutations and cuts the program ends with what partially mapped crossover means. |
| Crossover.OX1 | solution_evolve_lzma_separate_header.cpp:1318-1349 | For all permutations and cuts the segment of the first parent stays and around it the other values follow in the order of the second; it is a permutation. |
| ZpaqCoder.CodesStayInside | libzpaq.cpp:2402-2417 | The first four bytes of a coded run, its end symbol included, are a number inside the present interval, and no four bytes in a row are zero. (Also lines 2947-2968.) |
| ZpaqCoder.EndFlushes | libzpaq.cpp:2402-2417 | The end symbol, with probability 0, puts out exactly the four bytes of low. (Also lines 2947-2968.) |
| ZpaqRules.ShareOfOne | libzpaq.cpp:2109-2115 | A 1 keeps the low end and as many 65536ths of the width as its probability tells, rounded down from the exact product; a 0 keeps all from there to the same high end. (Also lines 2402-2417.) |
| ZpaqRules.ByteLeaves | libzpaq.cpp:2411-2416 | A byte leaves when both ends share it: low is shifted with a 0 and high with a 255, and low is never 0. |
| ZpaqRules.ByteInNumbers | libzpaq.cpp:2419-2447 | A byte is coded as a 0 of probability 0 and its eight bits from the top, a 1 with twice the answer of the predictor and 1 more, given all bits before it. |
| ZpaqRules.SegmentInNumbers | libzpaq.cpp:2419-2447 | A segment is coded as its bytes one after the other, the predictor going on, and the end. (Also lines 2947-2968.) |
| ZpaqMachines.Encoder.Encode | libzpaq.cpp:2402-2417 | The running encoder takes the step of the specification, and in numbers: as long as no byte leaves, one end stays, and the width kept for a 1 is the product of width and probability in 65536ths, rounded down. |
| ZpaqDecoding.CodedReads | libzpaq.cpp:2104-2125 | Standing in front of coded symbols, the decoder reads them and the end, and has the interval of the encoder and the four bytes behind. (Also lines 2402-2417.) |
| ZpaqDecoding.ArithmeticDecoderAnswers | libzpaq.cpp:2104-2125 | The arithmetic decoder answers with the coded bit, low <= curr <= high held, and with the end exactly at the end. |
| ZpaqSegments.SegmentRoundTrip | libzpaq.cpp:2104-2155 | For any predictor, every byte of a segment is decoded, then the end with curr 0, and the decoder stands exactly behind the four zeros with the interval and predictor of the encoder. (Also lines 2402-2447 and 2947-2968.) |
| ZpaqSegments.BlockRoundTrip | libzpaq.cpp:2104-2155 | All segments of a block are decoded, with any bytes between them, though predictor and interval go on from one to the next. (Also lines 2402-2447, 2871-2886 and 2947-2998.) |
| ZpaqSkip.SkipFromInside | libzpaq.cpp:2158-2183 | Skipping from any point inside a segment finds the byte behind its end. |
| ZpaqSkip.SkipAgreesWithDecoding | libzpaq.cpp:2127-2183 | Skipping a segment stops at the byte at which decoding it stops: no four bytes of coded data are taken for its end. |
| ZpaqMachines.Encoder.CompressSegment | libzpaq.cpp:2402-2447 | The running encoder writes the coded segment and four zeros, and is where the specification is. (Also lines 2947-2968.) |
| ZpaqMachines.Decoder.Decompress | libzpaq.cpp:2104-2155 | On every input the running decoder returns the byte, the end or the error of the specification. |
| ZpaqMachines.Decoder.SkipSegment | libzpaq.cpp:2158-2183 | On every input the running decoder passes over a segment as the specification does: up to the first byte other than zero, to the next four zeros, and behind the first byte other than zero after them. |
| ZpaqMachines.Decoder.SkipCoded | libzpaq.cpp:2127-2183 | Run at the start of a coded segment, skipping returns the byte at which decoding it would stop, and stands behind it. |
| ZpaqRoundTrip.CompressBlock | libzpaq.cpp:2419-2447 | Compressing segment after segment writes the stream of the block. (Also lines 2871-2886 and 2947-2998.) |
| ZpaqRoundTrip.ThereAndBack | libzpaq.cpp:2127-2155 | Encoder and decoder run one after the other give back the contents of all segments, for any predictor. (Also lines 2419-2447 and 2947-2998.) |
| ZpaqlJumps.JumpLeaves | libzpaq.cpp:1072 | Short or long, a jump as emitted is left for its destination when its test holds and for the next instruction when not. (Also lines 1078, 1089 and 1258.) |
| ZpaqlJumps.HeadInNumbers | libzpaq.h:1303-1309 | The opcodes: 39 jumps when the flag is true, 47 when it is false, 63 always; the long form is 255, behind the opposite short jump over 3 bytes. (Also libzpaq.cpp 2583-2600, libzpaq.cpp 2648-2680.) |
| ZpaqlJumps.ExecuteInNumbers | libzpaq.cpp:1072 | What the interpreter makes of 39, 47, 63 and 255 and of their operands, a signed byte from behind it or two bytes with the low one first. (Also lines 1078, 1089 and 1258.) |
| ZpaqlJumps.IfInNumbers | libzpaq.cpp:2583-2600 | What is compiled for an if: 47 and a byte, for ifnot 39; or the other of the two, 3, 255 and two bytes. |
| ZpaqlJumps.StructuredJumps | libzpaq.cpp:2575-2692 | In every compiled program, however if and do blocks cross: an if or else leads behind the else, or to the endif, that closes it exactly when its operand lies below address 65536, or it is a short jump over nothing; the end of a loop leads back to its do exactly when that begins below address 65536, or the loop has no test and the byte behind it happens to be the one its operand lacks. (Also libzpaq.h 1320-1333.) |
| ZpaqlJumps.LateIfCloses | libzpaq.cpp:2601-2637 | An if or else whose operand lies at address 65536 or later is closed by endif without an error exactly when, at the address left of it in 16 bits, the header has the opcode of a long jump in front. (Also libzpaq.h 1320-1333.) |
| ZpaqlJumps.LateLoop | libzpaq.cpp:2638-2689 | Such a program: with a header of at least 135 bytes, one-byte instructions up to address 65536, and an endless loop over nothing, it is compiled without an error, and the loop does not lead to its do. (Also libzpaq.h 1320-1333.) |
| ZpaqlJumps.LateIf | libzpaq.cpp:2583-2637 | Another: behind a header with 255 as its third byte, and one-byte instructions up to address 65538, an if over one byte is compiled without an error and does not lead to its endif. (Also libzpaq.h 1320-1333.) |
| ZpaqlCompiler.Stack.Pop | libzpaq.h:1320-1333 | The stack of 16-bit addresses gives them back last first, and reports when there is none. |
| ZpaqlCompiler.Compiler.Program | libzpaq.cpp:2575-2692 | The running compiler leaves in the header the code of the specification and an end, or ends with its error. |
| ZpaqPredictor.TrainProductFits | libzpaq.h:1150-1157 | The product of error and rate overflows 32 bits exactly when nothing has been counted and the error is beyond 24576 either way. |
| ZpaqPredictor.TrainProductOverflows | libzpaq.h:1150-1157 | This is reached: a counter that starts at one half and is trained with a single 1 under a limit of 0 overflows the product at a 0. (Also libzpaq.cpp 1767-1850.) |
| ZpaqPredictor.TrainMoves | libzpaq.h:1150-1157 | Even a product that has wrapped moves the 22-bit probability by the exact step, toward the bit, never out of its field, and the count never into it. |
| ZpaqPredictor.DotWithin | libzpaq.cpp:1906-1919 | The dot product of up to 255 weights and predictions, every partial sum included, fits 32 bits. |
| ZpaqPredictor.BlendWithin | libzpaq.cpp:1893-1905 | Two predictions weighed against each other stay in -2048..2047. |
| ZpaqPredictor.SseWithin | libzpaq.cpp:1929-1941 | The interpolated correction of a prediction stays a 15-bit probability, without overflow. |
| ZpaqPredictor.After | libzpaq.cpp:1854-2066 | After every run of predictions and updates, counters, bit history probabilities below 2^23, 20-bit signed and 16-bit weights are all within bounds. (Also libzpaq.h 1150-1185.) |
| ZpaqPredictor.InitialOk | libzpaq.cpp:1767-1850 | The tables begin within bounds. (Also libzpaq.h 1106-1110.) |
| ZpaqLearning.InitialInNumbers | libzpaq.cpp:1767-1850 | What the tables hold before the first bit, the share of ones of a bit history among it, rounded down from (2 n1 + 1) / (2 (n0 + n1 + 1)). (Also libzpaq.h 1106-1110.) |
| ZpaqLearning.OutputInNumbers | libzpaq.cpp:1854-1951 | What each component puts out, as an inequality between numbers: for ISSE 65536 out is w0 p + 64 w1 within one unit or out is the end of the range on that side; likewise the averages, the mixer with the upper bits of its weights, the interpolation of SSE, counters and matches. |
| ZpaqLearning.LearningInNumbers | libzpaq.cpp:1954-2069 | What each component learns: every weight of a mixer or ISSE moves by error times input, in 8192nds rounded to the nearest, or to the end of its range on that side, the second weight of ISSE by the error in 32nds; counters move by error times rate, and no other entry changes. (Also libzpaq.h 1150-1157, libzpaq.h 1167-1185.) |
| ZpaqLearning.LearningGoesTheRightWay | libzpaq.cpp:1854-2069 | Told a bit and asked the same again, no component puts out anything further away from the bit, if stretch is rising, as its table is. |
| ZpaqPredictors.Predictor.Predict | libzpaq.cpp:1854-1951 | The outputs of all components, by loops in 32-bit arithmetic, are those of the specification. |
| ZpaqPredictors.Predictor.Update | libzpaq.cpp:1954-2069 | Every table becomes that of the specification and stays within bounds. |
| ZpaqPredictors.Train | libzpaq.cpp:1854-2069 | Predicting and updating bit by bit gives the chances of the run, each of which makes an odd 16-bit number for the coder. (Also lines 2127-2155.) |
| ZpaqPredictors.StretchTable | libzpaq.cpp:1740-1750 | The table has 32768 entries; entry 16384 + k is j exactly where the runs of the values below j end at or before k and that of j goes past it, the lower half is the upper one mirrored and negated, and all of it is rising. |
| Bwt.NextIncreases | libzpaq.cpp:6650-6660 | Going to the next row of the sorted suffixes keeps rows with equal first bytes in order. |
| Bwt.SlotOfNext | libzpaq.cpp:7136-7177 | Counting puts the row that follows j at place j, for every string and every sorted suffix array, the row of the mark left out. |
| BwtMachine.Source.Fill | libzpaq.cpp:6585-6594 | Given out in pieces of any size, the pieces are the transform: column, mark and four bytes of index. (Also lines 6649-6660.) |
| BwtMachine.TransformedInNumbers | libzpaq.cpp:6649-6660 | The transform by place: the last byte of the string, then what stands in front of each suffix in order, 255 in front of the whole string, and the row of the whole string with its low byte first; of the empty string 255 and 0. |
| BwtMachine.LinkRows | libzpaq.cpp:7153-7182 | In one array, counts at its end and links at its start that never meet within the block size limit, every row is linked to its next. |
| BwtMachine.Restore | libzpaq.cpp:7136-7201 | From the transform of any string both programs, with and without bytes merged into the links, put out the string. (Also lines 7276-7287.) |
| E8e9.FilterInverse | libzpaq.cpp:6450-6461 | Patterns may overlap, so that what one changes belongs to others; undone in the opposite order, the filter for addresses is undone on every input, and the other way round. (Also lines 6939-6950.) |
| E8e9.FilterInNumbers | libzpaq.cpp:6450-6461 | When the filter comes to a place i, the three bytes behind it grow, as a number with its low byte first, by i modulo 2^24 if byte i halved is 116 and byte i + 4 is 0 or 255; in every other case nothing changes, and no byte outside these three ever does. |
| E8e9.UnfilterInNumbers | libzpaq.cpp:6939-6950 | On the way back they become less by i modulo 2^24 under the same condition. (Also lines 7076-7095 and 7205-7222.) |
| E8e9.LastPlace | libzpaq.cpp:6450-6461 | For the last place of any buffer, in its original bytes: the filter changes the three bytes behind it exactly as said. |
| E8e9.Deliver | libzpaq.cpp:6939-6952 | Undoing the filter in place and putting out each byte as soon as it has been passed gives the unfiltered data: no byte put out is changed later. (Also lines 7076-7095 and 7205-7222.) |
| E8e9.NextIsSlid | libzpaq.cpp:7306-7316 | Shifting, subtracting and masking in one 32-bit register deals with the pattern in its four bytes and the one that leaves. (Also lines 7236-7257.) |
| E8e9.HeldMore | libzpaq.cpp:7306-7316 | Byte by byte, what has been put out and what is in the register are the data with the filter undone at all places passed. (Also lines 7236-7260.) |
| E8e9.Unfilter.Finish | libzpaq.cpp:7296-7322 | Fed with any bytes, however few, the program that has only a register has in the end put out the unfiltered data, and is as it was at the start. |
| E8e9.ThereAndBack | libzpaq.cpp:6450-6461 | Filtered and fed to that program, every input comes out again. (Also lines 7296-7322.) |
| BwtFiltered.TraverseStreaming | libzpaq.cpp:7231-7270 | Following the links with the filter undone in a register gives the unfiltered string. |
| BwtFiltered.TraverseInto | libzpaq.cpp:7193-7223 | Following the links into memory and undoing the filter there gives the same. |
| BwtFiltered.ThereAndBack | libzpaq.cpp:6450-6461 | Filtered, transformed, put out in pieces of any size and restored by either program, every input comes out again. (Also lines 6585-6594, 6649-6660 and 7136-7287.) |
| Lz77.Level2RoundTrip | libzpaq.cpp:6797-6883 | The byte codes of every true parse lead the decoding program to exactly the bytes parsed, long matches split into pieces included. (Also lines 7069-7133.) |
| Lz77Decoding.Level1RoundTrip | libzpaq.cpp:6797-6853 | The bit codes of every true parse, padded to a byte, lead the decoding program, which acts on bits as soon as it has enough, to exactly the source. (Also lines 6921-7067.) |
| Lz77Rules.LiteralBytesInNumbers | libzpaq.cpp:6815-6824 | Literals of level 2: a code c below 64 is followed by exactly c + 1 literals, 64 as long as there are more. |
| Lz77Rules.LiteralsTakenInNumbers | libzpaq.cpp:7101-7115 | On the other side the decoder takes exactly c + 1 literals behind a code c below 64, whatever they are. |
| Lz77Rules.MatchBytesInNumbers | libzpaq.cpp:6852-6883 | Matches of level 2: the top two bits of a code tell how many bytes of the offset follow, the least that hold it, high byte first and 1 less; the others by how much the piece is longer than the shortest match; the piece is the longest that leaves nothing or enough for another. |
| Lz77Rules.LiteralBitsInNumbers | libzpaq.cpp:6801-6814 | Literals of level 1, bit by bit: two zeros; their number without its top bit, from the top, a 1 in front of each bit and a 0 behind; and their bytes, each with its lowest bit first. |
| Lz77Rules.MatchBitsInNumbers | libzpaq.cpp:6829-6850 | Matches of level 1, bit by bit: 8 more than the number of high offset bits in two and three bits, a quarter of the length in the same way as a number of literals, its last two bits, and offset + 2^rb - 1 without its top bit. |
| Lz77Search.FindBySuffix | libzpaq.cpp:6667-6700 | What the search along the suffix array finds is a true match, whatever the arrays hold; it is the last of a row of best matches, one for each neighbour tried, each of which takes the place of the one before exactly when it scores higher, with all the bytes that agree; neighbours and places ahead are left out only where the search breaks off. |
| Lz77SearchRules.SuffixBest | libzpaq.cpp:6667-6700 | The result of that search is what some neighbour gives, or nothing when none scores above 0; no neighbour tried gives a better one; a side ends at the bucket limit or behind a neighbour whose match is shorter than the best, shorter than the least or longer than 255; the places ahead end early only when nothing long enough has been found. |
| Lz77SearchRules.NearestNeighbours | libzpaq.cpp:6667-6700 | Where the inverse array is right, the nearest neighbour on either side is never better than the result. |
| Lz77SearchRules.FadedInNumbers | libzpaq.cpp:6691-6692 | The score of a match h bytes ahead is 5/8 of that of h - 1, rounded toward zero. |
| Lz77Search.FindInTables | libzpaq.cpp:6702-6743 | What the search in the hash tables finds is a true match, whatever they hold; it is the last of a row of best matches, one for each position tried, first by more bytes, then, unless that match is long enough, by fewer; a position takes the place of the best exactly when the byte at the end agrees, it is long enough, and it scores higher. |
| Lz77SearchRules.ResultIsCandidate | libzpaq.cpp:6702-6743 | The result of that search is what one of the positions gives, with all the bytes that agree, or nothing when none scores above 0; a position is left untried only when a match of 128 bytes has been found, or one by more bytes that is long enough. |
| Lz77SearchRules.NoneBetter | libzpaq.cpp:6702-6743 | No position tried, by more bytes or by fewer, whose byte at the end of the best match agrees when its turn comes, scores better than the result. |
| Lz77SearchRules.FoundIff | libzpaq.cpp:6728-6743 | With one table, as the methods have it, a match is found exactly when some position in the table gives one that scores above 0 and agrees in the last byte of the length that has to be exceeded. (Also lines 7622 and 7634.) |
| Lz77SearchRules.LittleMissed | libzpaq.cpp:6728-6743 | A position passed over for its end byte can be better than the result by at most the number of binary digits of the distance of the match then best, less 9. |
| Lz77SearchRules.NoneMissedNear | libzpaq.cpp:6728-6743 | So when all positions are less than 512 bytes back, no position looked at gives a better match of a length that is used. |
| Lz77SearchRules.BetterOneMissed | libzpaq.cpp:6728-6743 | From there on it fails: for every distance from 512 to 2^28 an input with a position that scores 20 and is passed over for one that scores at most 19. |
| Lz77Buffer.LzBuffer.Fill | libzpaq.cpp:6647-6794 | Each fill goes on as the scan does: wherever it stands it takes what the search comes to, if that is worth its code, with the pending literals in front, or one more literal; the codes written are those of exactly these tokens, a true parse. It moves on in the source, pauses only when the buffer is half full, and with a lookahead of at most 128 never fills the 16 kB of the buffer. |
| Lz77Buffer.FinishedDecodes | libzpaq.cpp:6647-6883 | What has been written when the source is finished leads the decoding program of its level to the source. (Also lines 6921-7133.) |
| Lz77Machines.ByteMachine.Feed | libzpaq.cpp:7101-7130 | The program of level 2 in its registers and memory takes the step of the specification. |
| Lz77Machines.BitMachine.Feed | libzpaq.cpp:6963-7065 | The program of level 1 in its registers and memory takes the step of the specification. |
| Lz77RoundTrip.ThereAndBack1 | libzpaq.cpp:6647-6883 | Filling until the source is finished and feeding the bytes to the program of level 1 leaves the source in its memory. (Also lines 6921-7067.) |
| Lz77RoundTrip.ThereAndBack2 | libzpaq.cpp:6647-6883 | Filling until the source is finished and feeding the bytes to the program of level 2 leaves the source in its memory. (Also lines 7069-7133.) |
| Lz77RoundTrip.FilteredThereAndBack1 | libzpaq.cpp:6450-6461 | With the filter in front of level 1, undone in the memory of its program, every input comes out again. (Also lines 6647-6883 and 6921-7067.) |
| Lz77RoundTrip.FilteredThereAndBack2 | libzpaq.cpp:6450-6461 | With the filter in front of level 2, undone in the memory of its program, every input comes out again. (Also lines 6647-6883 and 7069-7133.) |
| Heapsort.GreaterChild | libzpaq.cpp:4916-4930 | The child that is read unguarded never decides for the element behind the heap: what is chosen is the greater child inside the heap, if it exceeds the element. (Also lines 5582-5595.) |
| Heapsort.FixDown | libzpaq.cpp:4916-4932 | Sifting makes a heap of two heaps below an element, and only moves elements of the heap. (Also lines 5582-5596.) |
| Heapsort.HeapSort | libzpaq.cpp:4935-4952 | For every size from 1 on the elements are sorted by key and are the same elements; the array behind them is untouched. (Also lines 5598-5615.) |
| BitTranspose.TurnsBits | bitshuffle_core.c:105-112 | Three masked exchanges turn the 8 by 8 bits of a word. |
| BitShuffle.TransBitElem | bitshuffle_core.c:159-289 | Bit i of row 8j + k of the shuffled data is bit k of byte j of element i. |
| BitShuffle.UntransBitElem | bitshuffle_core.c:297-383 | The result is data that are shuffled to the input, whatever the input is. |
| BitShuffle.ShuffledInjective | bitshuffle_core.c:272-289 | No two data are shuffled to the same. |
| BitBlocks.DefaultBlockSize | bitshuffle_core.c:2034-2042 | The default block size is the greatest multiple of eight whose elements are within 8 kB, but at least 128. |
| BitBlocks.PiecesInjective | bitshuffle_core.c:1873-1928 | Data cut into blocks and a copied tail are determined by what their blocks are shuffled to. |
| BitBlocks.Blocked | bitshuffle_core.c:1873-1928 | Full blocks, a last block and a copied tail of fewer than eight elements; a block size that is no multiple of eight is an error. (Also lines 1931-1975.) |
| BitBlocks.ThereAndBack | bitshuffle_core.c:1873-1975 | For every size, element size and block size that is a multiple of eight, unshuffling undoes shuffling. (Also lines 2034-2058.) |
| BitVectors.Turn16 | bitshuffle_core.c:935-963 | Four layers of unpacking turn sixteen elements of two bytes. |
| BitVectors.Turn32 | bitshuffle_core.c:967-1009 | Three layers of bytes and one of 64-bit lanes turn sixteen elements of four bytes. |
| BitVectors.Turn64 | bitshuffle_core.c:1013-1078 | Two layers of bytes, one of 32-bit and one of 64-bit lanes turn sixteen elements of eight bytes. |
| BitFast.Hierarchical | bitshuffle_core.c:126-143 | Moving the chunks of long elements apart, turning them as short elements and bringing rows together is turning the long elements. (Also lines 243-257 and 1113-1138.) |
| BitFast.TransByteElemFast | bitshuffle_core.c:935-1140 | For every element size the bytes go where the plain form puts them. |
| BitFast.TransBitByteFast | bitshuffle_core.c:1144-1173 | Masks of top bits, taken eight times with a shift of 16-bit lanes between, give the bit rows of the plain form. |
| BitFast.TransBitElemFast | bitshuffle_core.c:935-1197 | Bit i of row 8j + k of the shuffled data is bit k of byte j of element i, as for the plain form. |
| BitFast.ShuffledDetermined | bitshuffle_core.c:159-289 | Data have one shuffled form: the fast and the plain form write the same bytes. (Also lines 935-1197.) |
| IoChain.RefillIsSafe | iochain.c:42-89 | When an iteration writes a slot of the ring, the iteration 33 before it has read it. |
| IoChain.StepKeeps | iochain.c:17-89 | Whatever thread steps, locks are held by exactly the iterations between taking and freeing them, current slots hold the sequential positions, and the blocks written are in place. (Also bitshuffle_core.c 1931-1975.) |
| IoChain.Progress | iochain.c:42-89 | Until everything is done some thread can take a step. |
| IoChain.EveryRunIsSequential | iochain.c:17-89 | Under every interleaving of any number of threads, a run has at most 15 steps for each iteration, can go on until it has them all, and then the output is that of the blocks done one after the other. (Also bitshuffle_core.c 1899-1975.) |
| BlockChain.EveryRunIsBlocked | bitshuffle_core.c:1873-1975 | With the full blocks of a buffer as the work, shuffled or unshuffled: once no thread can go on, what they have written, with the last block and the tail behind, is exactly what the loop of one thread puts out. (Also iochain.c 17-89.) |
| BlockChain.CutDoesBlocks | bitshuffle_core.c:1931-1975 | For every buffer there is such work: the blocks of what the loop of one thread puts out. |

## Left out

- The default probability is that of an absent entry of one map for all the probability arrays; that every index is inside its array is proved apart (`TableInBounds`).
- `|=` and `^` of numbers without common bits are additions; a failing `malloc` is not modelled.
- LZMA: the end mark is never written (its parameter is 0 on the path used) but is read. The decoder looks for the end of its input only at the head of its loop, and so does the model. The call that wraps the compressor ignores its return code and caps the output at 2 MB; the wrapper is not part of the model. The ZIP headers and the checksum are unused.
- LzmaFormat.Compress: for sources and buffers below the greatest 64-bit size, where the counter of pending bytes saturates.
- Bag of cells: the parser reads any number of roots, the writer one, as on the path used; a reference or offset out of range, which the program would follow, is an error of its own here. Indexes, checksums, cache bits and stored hashes are answered as foreign. `CellBuilder`, cell hashes and level computations belong to other libraries: a cell is its special flag, level mask, bits and references. The sort by new index is modelled as putting each cell at its index.
- The genetic search: random numbers, fitness and timing; which of the two crossovers is taken.
- ZPAQ: stored segments, which are not coded; file names, comments and checksums are bytes between segments. The predictor of the coder is any function of the bits seen.
- ZpaqPredictor.After: what contexts find - rows of hash tables, match history - is arbitrary, and so are the values of squash and stretch within their ranges; the hash tables themselves are not modelled. The rates follow the comment in the code, twice the quotient of 2^17 by 2i + 3, where the header says 2^16 by i + 1.5.
- ZpaqlJumps.StructuredJumps: headers have at least seven bytes and a gap of 128 zeros, as all have; instructions other than jumps are any bytes, and an address that is popped but lies outside the code is an error of its own.
- ZpaqPredictors.StretchTable: the 712 run lengths in the program are a parameter; that they add up to 16384 is all that is used of them.
- The interpreter beyond its jumps, the x86 code generator, method strings and their heuristics, SHA-1, AES, scrypt.
- BwtMachine.Restore: for fresh memory, as at the start of a block.
- Lz77Buffer.LzBuffer.Fill: the bound of 16 kB is stated for a lookahead of at most 128. What the hash tables list for a place, behind their check bits, and the inverse suffix array are arbitrary; the byte in front of the buffer, which is read for a match of no bytes, is a parameter.
- Lz77SearchRules.NoneMissedNear: the search in the hash tables looks at one byte before it measures a match, so that not every position in the table is compared; which ones can be missed, and by how much, is what it and its neighbours state.
- Lz77Machines.BitMachine.Feed: where the program would copy from in front of its output, the model stops.
- The suffix sorter except for its heapsort.
- E8e9.Unfilter.Finish: the count of bytes does not wrap around; that of the program has 32 bits, and its blocks are shorter.
- Heapsort.HeapSort: keys are a function of the element, as the two key lookups of the sorter are.
- Bit shuffle: little-endian machines; the plain and SSE2 forms. The SSE2 forms of the way back and the NEON, AVX2 and AVX512 forms are left out. Blocks compressed with lz4 or zstd belong to other libraries.
- IoChain.EveryRunIsSequential: taking a lock together with the number of the iteration is one step; which iterations OpenMP gives to which thread does not matter and is not modelled; the work of a block is any function of its input position. The last block and the tail, which one thread deals with after the loop, are apart in BlockChain.
