# SimpleZip's DEFLATE compressor, verified

SimpleZip compresses files with its own DEFLATE compressor: an LZ77 matcher over hashed windows, a
length-limited Huffman construction by package-merge, stored, static and dynamic blocks, and worker threads
whose bit streams are joined. This project models that compressor in Dafny and proves it against a decoder
written from sections 3.2.2 to 3.2.7 of RFC 1951, which the repository itself does not contain.

`dafny verify dfyconfig.toml` checks everything.

| file | what it holds |
|---|---|
| `Words.dfy`, `Options.dfy` | unsigned words, the C operators on them, their bits; optional results |
| `BitStream.dfy` | the bit buffer as a class that appends to a sequence of bits; bit reversal, by loop and by table |
| `Canonical.dfy` | canonical codes and the bit-by-bit decoder of section 3.2.2 |
| `PackageMerge.dfy` | lists, selection, completeness and optimality of package-merge |
| `HuffmanTree.dfy` | the class that builds a code from symbols |
| `PrefixCodes.dfy` | the Kraft inequality, which makes optimality a statement about all prefix codes |
| `RunLength.dfy`, `Tables.dfy` | run-length coding of code lengths; the length and distance code tables |
| `Inflate.dfy` | the reference decoder |
| `Items.dfy` | LZ77 items, their bits under two codes, and reading them back |
| `StaticBlock.dfy`, `DynamicBlock.dfy`, `StoredBlock.dfy` | the three block encoders and their round trips |
| `RollingHash.dfy`, `Lz77.dfy` | the circular rolling hash and the dictionary |
| `BlockChoice.dfy` | one block: its coding, or a stored block if that saves nothing |
| `Stream.dfy`, `Sections.dfy` | where blocks stand in the joined stream; the cut into sections and blocks |
| `Scheduler.dfy` | the worker threads, run block by block under any schedule |
| `Misread.dfy`, `Outcome.dfy` | what a decoder makes of a misaligned stored block, and of the whole result |
| `Compressor.dfy` | the compressor class and the theorems about its result |
| `ZeroHead.dfy` | why dynamic coding never stores a block that starts with 65280 zero bytes |
| `ZeroRuns.dfy`, `FailingRun.dfy`, `OneThreadRun.dfy` | inputs on which the compressor fails, on two threads and on one |
| `LostMatch.dfy`, `ExtraBit.dfy` | an input in which the hash filter loses a match; one whose dynamic block is a bit too long |

## Main results

* **The result decodes to the input, and exactly when.** For every non-empty input, thread count, level, coding type
  and schedule, the decoder run on the exported bytes returns the input and stops at the end of the one final block,
  provided the stored blocks are aligned: their sections start on byte boundaries, and they do not start at bit 5 of
  a byte (`Compressor.ResultDecodes`, `Compressor.DeflateCompressor.Compress`). If they are not, it does not return
  the input (`Compressor.ResultOutput`, `Compressor.OutputExact`). The one exception is an input some multiple of
  1048576 bytes into which, with more than 65535 bytes to go, 65280 zero bytes follow, if blocks are static, or, on more
  than one thread, 1023 bytes 255: only then can the misread first 65535 bytes of a longer stored block be taken for a
  part of the data (`Misread.DecoyExact` says exactly when). Dynamic coding never stores a block with such zeros
  (`ZeroHead.DynamicNotStored`), so on one thread it has no exception (`Compressor.DynamicOutputExact`), nor has a last
  block of at most 65535 bytes (`Compressor.LastBlockExact`). Block by block the equivalence is unconditional
  (`Compressor.ResultExact`). The
  stored blocks are aligned when every block is compressed, when every block is stored, and for any input of at most
  one block size.
* **Nothing in the code establishes alignment.** `align_to_byte` writes eight bits, not none, at an aligned cursor
  (util/bit_util.cpp:114-119), so a stored block whose header starts at bit 5 of a byte gets a zero byte too many;
  and its padding is relative to its section's own stream, which is later appended at any bit offset
  (compress/deflate.cpp:82, 116-118). Both happen, with static blocks, at every level and under every schedule. On two
  threads 1048577 zero bytes are compressed to a result the decoder rejects (`FailingRun.ZerosRejected`,
  `FailingRun.CompressZeros`), because the second section does not start on a byte boundary. On one thread four bytes
  and zeros up to 1048576, and then as many bytes without repetition, put a stored block at bit 5, and the decoder does
  not return the input (`OneThreadRun.SourceLost`, `OneThreadRun.CompressSource`). The first sub-block of such a block
  is not rejected but accepted with LEN 65280 and shifted by a zero byte (`Misread.FullAtBitFive`); only a short block,
  which never stands there, would be rejected (`StoredBlock.StoredAtBitFive`).
* **Package-merge is optimal.** The depths are complete, at most the limit, and no prefix code of words within
  that limit encodes the source in fewer bits (`PackageMerge.SelectionIsOptimal`,
  `HuffmanTrees.HuffmanTree.Calculate`, `PrefixCodes.OptimalPrefixCode`). In a dynamic block the optimum is for
  the items with one end-of-block more than they hold: compress/deflate.cpp:234 counts the one in the items
  and compress/deflate.cpp:240 adds another (`DynamicBlock.CodesNearlyShortest` bounds what this can cost, and for
  the bytes "aab" it costs that much: one bit, `ExtraBit.OneBitLonger`).
* **The match search is exact.** Which candidates are visited, which pass the filter, when the search stops and
  what it returns are all determined (`Lz77.LZ77Dictionary.LongestMatch`, `Lz77.TokenUnique`). The hash filter lets
  a true match pass exactly when the prefix hash before it is still in the ring, or its replacement has the same value
  (`Lz77.LZ77Dictionary.FilterExact`). Only at distance 32768 can it be lost, and there a match of 258 bytes
  is passed over for one of four, in the parse of an input at every level (`LostMatch.TokenAtHere`); the repository's own
  description of the filter does not mention this.
* **No schedule of the threads changes the result.** Workers, each with its own stream and dictionary, take turns block
  by block in any order and are then joined; what they have written is the plan of the input that the settings fix
  (`Scheduler.RunSchedule`, `Scheduler.WrittenPlan`, `Sections.PlanUnique`), so two runs of the compressor under any
  two schedules give the same bytes (`Compressor.CompressTwice`). A fair schedule finishes every section before the
  join (`Scheduler.RunFair`).
* **The format and the limits are also stated in numbers**, apart from the constants that the compressor and the
  decoder share: the layout of the three kinds of block (`StaticBlock.FixedExample`, `DynamicBlock.DynamicLayout`,
  `StoredBlock.SubLayout`), the order of the code length code (`DynamicBlock.SentAt`), what each run-length code takes
  (`RunLength.RunLengthEncode`), when the search stops at each level (`Lz77.StopsAtLevel1`), and the cut into sections
  and blocks (`Sections.PlanThreads`, `Sections.PlanSections`, `Sections.SectionBlocks`).

Where the repository's README and its code differ the model follows the code: the chain budget shrinks when
the match is at least, not more than, the good or nice length (compress/lz77_dictionary.cpp:63-71).

## Model

| member | source | states |
|---|---|---|
| BitStreams.ReverseBits | util/bit_util.cpp:18-31 | The shifting loop gives the value whose n bits are the payload's in reverse, for every n up to 31. |
| BitStreams.ReverseTable | util/gt_reversebits.cpp:28-34 | The in-place recurrence fills the table with the same reversed values, for every width. |
| BitStreams.ReverseRecurrence | util/gt_reversebits.cpp:32-34 | An entry is the one at half its index shifted right, with the low bit of the index moved to the top. |
| BitStreams.ReverseTwice | util/bit_util.cpp:18-31 | Reversing twice gives the payload masked to its low n bits. |
| BitStreams.BitStream.constructor | util/bit_util.hpp:20-29 | A new stream is empty; its capacity is the smallest power of two, at least one byte, that holds the requested bits. |
| BitStreams.BitStream.WriteBit | util/bit_util.cpp:33-38 | Appends the lowest bit of the payload and nothing else. |
| BitStreams.BitStream.WriteBits | util/bit_util.cpp:40-63 | Appends exactly the low n bits in the chosen order at any cursor, ignoring higher payload bits. |
| BitStreams.BitStream.Append | util/bit_util.cpp:65-112 | Appending a stream at any bit offset is concatenation of the two bit sequences, and no bit past the source's end gets in. |
| BitStreams.BitStream.AlignToByte | util/bit_util.cpp:114-119 | Appends 8 minus the offset modulo 8 copies of the bit, which is eight of them at an aligned cursor; the cursor ends aligned. |
| BitStreams.BitStream.BitsSize | util/bit_util.cpp:149-151 | The number of bits written. |
| BitStreams.BitStream.BytesSize | util/bit_util.cpp:153-155 | The least number of bytes that hold the bits written. |
| BitStreams.BitStream.Export | util/bit_util.cpp:157-163 | The exported bytes are the written bits padded with zeros to whole bytes, or the bytes that hold the first n of them. |
| BitStreams.BitStream.NextByte | util/bit_util.cpp:165-171 | Moving to the next byte keeps what was written and a zero tail, growing the buffer when it is full. |
| BitStreams.BitStream.Expand | util/bit_util.cpp:173-179 | Doubles the buffer with zero bytes and keeps the cursor. |
| BitStreams.TailZero | util/bit_util.cpp:33-63 | All bits of the buffer at and past the cursor are zero, which is what the OR writes rely on. |
| Canonical.TotalIsKraft | compress/deflate_huffman.cpp:87-92 | The first code past a level is the Kraft sum scaled to that level. |
| Canonical.CodeFits | compress/deflate_huffman.cpp:87-97 | Under the Kraft condition every canonical code fits in its depth. |
| Canonical.PrefixFree | compress/deflate_huffman.cpp:87-97 | Under the Kraft condition no canonical code is a prefix of another symbol's. |
| Canonical.DecodeWritten | compress/deflate_huffman.cpp:102-110 | A code written most significant bit first is read back by the bit-by-bit decoder, whatever surrounds it. |
| Canonical.SymbolsRoundTrip | compress/deflate_huffman.cpp:81-110 | Any sequence of symbols that have codes is recovered from its bits. |
| Canonical.TrimmedCode | compress/deflate.cpp:250-253 | Cutting unused symbols off the end of a table changes no code. |
| Canonical.CodesInOrder | compress/deflate_huffman.cpp:87-97 | Codes of one depth are consecutive in the order of their symbols, and shorter codes lie below the starts of longer ones. |
| Canonical.StandardExample | compress/deflate_huffman.cpp:81-110 | The eight codes of the example in section 3.2.2 of RFC 1951, bit by bit. |
| PackageMerge.CutIsCheapest | compress/deflate_huffman.cpp:46-64 | The merged list is cheapest first: no choice of leaves and packages of the same number costs less. |
| PackageMerge.CheapestCoins | compress/deflate_huffman.cpp:45-79 | The first b items of list i cost no more than any set of coins at least b coins of that list wide. |
| PackageMerge.LeavesNested | compress/deflate_huffman.cpp:52-54 | With leaves first on ties, the leaves selected in a list are among those selected in the list after it. |
| PackageMerge.DepthsWidth | compress/deflate_huffman.cpp:67-79 | The selected leaf coins are exactly as wide as the selection. |
| PackageMerge.SelectionFits | compress/deflate_huffman.cpp:68 | The last list has the 2(N-1) items of the selection if and only if N is at most 2^L. |
| PackageMerge.SelectionIsComplete | compress/deflate_huffman.cpp:45-79 | Every symbol gets a depth in 1..L and the Kraft sum is exactly 1. |
| PackageMerge.SelectionIsOptimal | compress/deflate_huffman.cpp:45-79 | No depths of at most L with Kraft sum at most 1 have a smaller weighted total. |
| HuffmanTrees.SelectedIsComplete | compress/deflate_huffman.cpp:30-79 | Exactly the indexed symbols have a depth, each in 1..L, and the Kraft sum over the alphabet is 1. |
| HuffmanTrees.SelectedIsOptimal | compress/deflate_huffman.cpp:30-79 | Carried over from the sorted index to the alphabet: no feasible lengths encode the source in fewer bits, also when an unused symbol was added. |
| HuffmanTrees.SortByFrequency | compress/deflate_huffman.cpp:42-44 | The same symbols, by rising frequency: an insertion sort, as one of the sorts the construction may be given. |
| HuffmanTrees.InsertionSortSorts | compress/deflate_huffman.cpp:42-44 | That sort meets what is required of the sort parameter. |
| HuffmanTrees.DepthsUnique | compress/deflate_huffman.cpp:30-79 | The frequencies and the order of ties fix every depth. |
| HuffmanTrees.LoneDepths | compress/deflate_huffman.cpp:31-41 | A symbol that is the only one in its source gets one bit, and so does 0, or 1 if it is 0 itself; no other symbol gets any. |
| HuffmanTrees.HuffmanTree.Calculate | compress/deflate_huffman.cpp:20-100 | An empty source is an error; otherwise the depths are complete, within the limit, optimal, positive exactly for the symbols used, and the codes are canonical. A lone symbol and the lowest other one get one bit each. |
| HuffmanTrees.HuffmanTree.BuildIndex | compress/deflate_huffman.cpp:31-41 | The symbols in use, filled up to two with the lowest unused ones. |
| HuffmanTrees.HuffmanTree.MergedList | compress/deflate_huffman.cpp:47-65 | A list is the stable merge of the leaves with the packages of the list before, each package tagged with where its parts are. |
| HuffmanTrees.HuffmanTree.SelectDepths | compress/deflate_huffman.cpp:67-79 | Counting selected coins from the last list down, without a tree, gives each symbol its number of coins. |
| HuffmanTrees.HuffmanTree.AssignCodes | compress/deflate_huffman.cpp:81-97 | Every symbol with a depth gets its canonical code. |
| HuffmanTrees.HuffmanTree.WriteToBs | compress/deflate_huffman.cpp:106-110 | Appends the symbol's canonical code, most significant bit first. |
| HuffmanTrees.HuffmanTree.GetLastCode | compress/deflate_huffman.cpp:112-119 | The largest symbol with a depth, or -1 if there is none. |
| PrefixCodes.KraftInequality | compress/deflate_huffman.cpp:30-79 | The words of any prefix code of depth L fill at most 2^L leaves. |
| PrefixCodes.OptimalPrefixCode | compress/deflate_huffman.cpp:30-79 | So package-merge's depths beat every prefix code of words of at most L bits, canonical or not. |
| RunLength.PackFields | compress/deflate.cpp:364-377 | The low five bits and the bits above them are recovered from a packed code. |
| RunLength.RunLengthEncode | compress/deflate.cpp:328-362 | The codes expand to the lengths after any prefix, have counts that fit their extra bits, never start with a repeat, and each takes the most it can of its whole run: 138 zeros or all of 3 to 137, six repeats or all of 3 to 5. |
| RunLength.RunsTakeMost | compress/deflate.cpp:330-359 | So no run is cut short: only runs of less than three are sent length by length, and only the last code of a run can be less than full. |
| RunLength.RepeatSymbols | compress/deflate.cpp:290-296 | 16, 17 and 18 send counts from 3, 3 and 11 on in 2, 3 and 7 bits; 16 repeats the last length, the others zeros. |
| RunLength.EncodeRun | compress/deflate.cpp:335-344 | A run of a non-zero length: itself, then sixes, then one repeat of 3 to 5 or single lengths. |
| RunLength.EncodeZeros | compress/deflate.cpp:345-359 | A run of zeros: 138s, then one repeat of 11 to 137 or of 3 to 10, then single zeros. |
| Tables.LengthTableInverts | compress/gt_deflate.cpp:53-84 | For every length 3..258 base plus extra bits of its code give it back, and the extra value fits. |
| Tables.DistanceTableInverts | compress/gt_deflate.cpp:97-115 | The same for every distance 1..32768. |
| Tables.LengthCodes | compress/gt_deflate.cpp:53-84 | The length codes follow one another without gap or overlap from 3 to 257, four to each number of extra bits from 265 on; 285 stands for 258 alone. |
| Tables.DistanceCodes | compress/gt_deflate.cpp:97-115 | The distance codes follow one another in the same way from 1 on, two to each number of extra bits. |
| Tables.LongestCode | compress/gt_deflate.cpp:76-84 | A length is sent as 285 if and only if it is 258. |
| Tables.GenerateTables | compress/gt_deflate.cpp:49-119 | The generator loops fill both tables with rows that the decoder's tables invert. |
| Items.DecodeItems | compress/deflate.cpp:302-325 | The decoder recovers any tokens from the bits of their items and the end of block, under any two usable codes. |
| StaticBlock.FixedLitCodes | compress/deflate.cpp:203-212 | The values and widths the encoder writes are the canonical fixed codes of section 3.2.6 of RFC 1951. |
| StaticBlock.FixedDistCodes | compress/deflate.cpp:187 | Distances are written as the canonical five-bit fixed codes. |
| StaticBlock.StaticHead | compress/deflate.cpp:171-172 | A static block starts with its mark and the bits 1, 0. |
| StaticBlock.FixedExample | compress/deflate.cpp:173-216 | The bits of a letter, a copy of 20 bytes from 10 back, and the end of block: codes highest bit first, extra bits lowest first. |
| StaticBlock.EncodeStaticBlock | compress/deflate.cpp:168-217 | Appends the header and every item's fixed code with its extra bits; every item has a code. |
| StaticBlock.StaticRoundTrip | compress/deflate.cpp:168-217 | A static block is decoded to what its tokens expand to, at any position and after any output. |
| DynamicBlock.CollectCodes | compress/deflate.cpp:222-244 | The symbols both codes are built from: the items', one more end of block, and distance 0 if there is none. |
| DynamicBlock.NoDistances | compress/deflate.cpp:241-253 | A block without copies sends two distance lengths of one bit each. |
| DynamicBlock.LoneTable | compress/deflate.cpp:247-253 | A table built from one symbol alone: one bit for it and for its partner, and no lengths after the later of the two. |
| DynamicBlock.BuildCode | compress/deflate.cpp:247-253 | A tree and its table without the unused end; complete, shortest for its symbols, codes unchanged by the cut. |
| DynamicBlock.LastClIndex | compress/deflate.cpp:270-276 | The last used place in the permuted order; never below HCLEN's minimum of four. |
| DynamicBlock.SentOrder | compress/cps_deflate.hpp:39-40 | The lengths of the code length code go out in the order 16, 17, 18, 0, 8, 7, 9, 6 and so on outwards to 15. |
| DynamicBlock.SentAt | compress/deflate.cpp:279-284 | The k-th three bits after the sizes are the length of the k-th symbol of that order, which is given by a formula. |
| DynamicBlock.LastSent | compress/deflate.cpp:270-278 | The last length sent is in use, and none after it is. |
| DynamicBlock.DynamicLayout | compress/deflate.cpp:266-326 | A dynamic block is its mark, the bits 0, 1, the sizes in 5, 5 and 4 bits, the code length code, the literal lengths, the distance lengths, and the items, in this order. |
| DynamicBlock.WriteHeader | compress/deflate.cpp:266-300 | Appends the header whose fields are all in range, so no write loses a bit. |
| DynamicBlock.TablesExpand | compress/deflate.cpp:254-263 | The two tables' run-length codes, one after the other, expand to the two tables. |
| DynamicBlock.HeaderRoundTrip | compress/deflate.cpp:264-300 | The decoder rebuilds both tables from the header. |
| DynamicBlock.DynamicRoundTrip | compress/deflate.cpp:219-326 | A dynamic block is decoded to what its tokens expand to, at any position and after any output. |
| DynamicBlock.ItemsCost | compress/deflate.cpp:301-325 | The data of a block takes the sum of its symbols' depths and its extra bits. |
| DynamicBlock.CodesNearlyShortest | compress/deflate.cpp:240-253 | Other codes of at most 15 bits save no more than the difference of their end-of-block codes. |
| DynamicBlock.BestOfFifteen | compress/cps_deflate.hpp:33 | No codes of at most 15 bits are better for the symbols counted. |
| DynamicBlock.BestOfSeven | compress/cps_deflate.hpp:31 | The code length code has at most 7 bits, and no code of at most 7 bits is better for the run-length symbols. |
| DynamicBlock.BuiltUnique | compress/deflate.cpp:247-276 | The items and the order of ties fix everything a dynamic block sends. |
| DynamicBlock.EncodeDynamicBlock | compress/deflate.cpp:219-326 | Appends a block whose codes are sound for the decoder, the best for the symbols counted, and sent without unused lengths. |
| StoredBlock.EncodeStoreBlock | compress/deflate.cpp:149-166 | Appends sub-blocks of at most 65535 bytes, each with LEN, its complement and padding to its own stream's byte boundary; only the last can be final. |
| StoredBlock.SubLayout | compress/deflate.cpp:153-165 | A sub-block is its mark, the bits 0, 0, zeros up to a byte boundary of its stream, its size, 65535 less that, and its bytes. |
| StoredBlock.SubSizes | compress/deflate.cpp:149-166 | Every sub-block but the last has 65535 bytes and no mark. |
| StoredBlock.PaddingAgrees | util/bit_util.cpp:114-119 | The padding ends where a decoder expects if and only if the stream starts on a byte boundary and the header does not end on one. |
| StoredBlock.SubBlockExact | compress/deflate.cpp:153-165 | A sub-block is decoded to its payload and end if and only if its padding agrees. |
| StoredBlock.StoredBlockExact | compress/deflate.cpp:149-166 | The same for a whole stored block: only its first sub-block is at risk. |
| StoredBlock.StoredDecodes | compress/deflate.cpp:149-166 | A stored block read faithfully gives its payload and leaves the decoder at its end, or stops it if it is final. |
| StoredBlock.StoredSize | compress/deflate.cpp:149-166 | 8 bits a byte, at most 43 for the first sub-block and 40 for each other; exactly 40 each from an aligned cursor. |
| StoredBlock.StoredAtBitFive | compress/deflate.cpp:156-160 | One byte stored at bit 5 is rejected by the decoder; the compressor only puts longer blocks there. |
| RollingHash.PowerReduced | compress/lz77_dictionary.cpp:104-115 | The table of powers of the root holds the powers modulo 2^64. |
| RollingHash.NextPrefix | compress/lz77_dictionary.cpp:21-23 | The next prefix hash is the one before times 13333 plus the byte, modulo 2^64. |
| RollingHash.DifferenceIsRange | compress/lz77_dictionary.cpp:117-121 | With the right two prefix hashes the computed hash is the polynomial hash of the range modulo 2^64. |
| RollingHash.PredecessorMatters | compress/lz77_dictionary.cpp:117-121 | Two prefix hashes before a range give the same hash only if they are equal, since the root is odd. |
| Lz77.TrigramMatch | compress/cps_deflate.hpp:137-141 | Equal keys mean three equal bytes, all inside the input. |
| Lz77.RetainedUpTo | compress/lz77_dictionary.cpp:20-23 | At a distance below 32768, or from position 0, the prefix hash is still in the ring; at 32768, with 258 bytes left, it is not. |
| Lz77.LZ77Dictionary.Reset | compress/lz77_dictionary.cpp:123-133 | Empties the chains and the ring. |
| Lz77.LZ77Dictionary.FillRing | compress/lz77_dictionary.cpp:20-23 | The ring starts with the prefix hashes of the first 258 positions. |
| Lz77.LZ77Dictionary.AdvanceRing | compress/lz77_dictionary.cpp:97-99 | Moves the ring on by one position and keeps all other retained prefix hashes. |
| Lz77.LZ77Dictionary.AddToChain | compress/lz77_dictionary.cpp:100 | Keeps every chain the exact list of earlier positions with its key, nearest first. |
| Lz77.LZ77Dictionary.HashExact | compress/lz77_dictionary.cpp:117-121 | For every retained range the hash taken from the ring is the hash of the bytes. |
| Lz77.LZ77Dictionary.FilterExact | compress/lz77_dictionary.cpp:48-53 | Exactly when the hash filter lets a true match pass. |
| Lz77.LZ77Dictionary.Compare | compress/lz77_dictionary.cpp:43-59 | A candidate is accepted exactly when as many bytes match as the best so far and its hash is not lost; then its length is the common prefix, capped at 258. |
| Lz77.LZ77Dictionary.LongestMatch | compress/lz77_dictionary.cpp:37-80 | Visits the chain until it first has a reason to stop and returns the longest accepted match, the nearest of its length; no visited candidate with a retained hash is longer. |
| Lz77.LZ77Dictionary.NextToken | compress/lz77_dictionary.cpp:32-88 | A literal if and only if no position of the window shares the three bytes, else a length item followed by its distance. |
| Lz77.LZ77Dictionary.Calc | compress/lz77_dictionary.cpp:8-102 | The items are a greedy parse that expands to the input, with lengths 3..258 and distances 1..32768 inside it; inputs of up to ten bytes are literals. |
| Lz77.TokenUnique | compress/lz77_dictionary.cpp:32-88 | Input, position and level leave exactly one token. |
| Lz77.LiteralExact | compress/lz77_dictionary.cpp:32-42 | A token is a literal if and only if none of the 32768 positions before it starts with the same three bytes; a copy is a true match within them. |
| Lz77.StopsAtLevel0 | compress/cps_deflate.hpp:45 | At level 0 the search stops at a match of 16, or after 4, 16 or 64 candidates when the match is at least 8, at least 4, or shorter; not before. |
| Lz77.StopsAtLevel1 | compress/cps_deflate.hpp:46 | At level 1: at a match of 128, or after 8, 32 or 128 candidates at 16, 8, or less. |
| Lz77.StopsAtLevel2 | compress/cps_deflate.hpp:47 | At level 2: at a match of 258, or after 32, 128 or 512 candidates at 128, 16, or less. |
| Lz77.StopsAtLevel3 | compress/cps_deflate.hpp:48 | At level 3: at a match of 258, or after 4096 candidates. |
| Lz77.ParsedLength | compress/lz77_dictionary.cpp:12-18 | More than ten bytes are parsed, ten or fewer are literals. |
| Lz77.ParsedUnique | compress/lz77_dictionary.cpp:8-102 | Input and level leave exactly one parse. |
| Lz77.WindowComplete | compress/lz77_dictionary.cpp:33-42 | No earlier position of the window with the key is missing from the candidates. |
| Lz77.CopyReproduces | tests/deflate_test.cpp:42-45 | A byte-by-byte copy, overlapping or not, reproduces the matched bytes. |
| Stream.RunExact | compress/deflate.cpp:80-90 | The decoder reads every block as written if and only if the stored blocks are aligned. |
| Stream.RunDecodes | compress/deflate.cpp:115-118 | Blocks read faithfully, only the last of them marked, decode to their data and stop at their end. |
| Stream.PlacedMarks | compress/deflate.cpp:54 | Exactly one block of the joined stream is marked last, also when trailing sections are empty. |
| Stream.BlkSize | compress/deflate.cpp:80-90 | A block of n bytes takes at most 8n + 43 + 40 (ceil(n / 65535) - 1) bits at any offset, whichever encoding is chosen. |
| Stream.RunSize | compress/deflate.cpp:80-90 | The stream takes at most 8 bits a byte, 43 a block, and 40 for each 65535 bytes. |
| BlockChoice.EncodeItems | compress/deflate.cpp:70-78 | The chosen coding's block of the items; it decodes to the data wherever it is placed. |
| BlockChoice.EncodeBlock | compress/deflate.cpp:56-90 | The block is the compressed form if that takes fewer bytes than the data, else it is stored. |
| BlockChoice.ChosenExact | compress/deflate.cpp:80-90 | A block is stored if and only if its compressed form, rounded up to bytes, is no shorter than its data. |
| BlockChoice.BlockUnique | compress/deflate.cpp:56-90 | The data, the mark, the offset and the settings fix the kind of the block and all its bits. |
| Sections.SectionsCover | compress/deflate.cpp:94-108 | The sections reach the end of the input for every length and thread count. |
| Sections.PlanData | compress/deflate.cpp:94-118 | The blocks of all sections carry the input in order. |
| Sections.PlanMarks | compress/deflate.cpp:49-54 | Exactly one block is marked last, and it is the last one. |
| Sections.PlanFull | compress/deflate.cpp:49-54 | Every block of every section but the one marked last has exactly the block size. |
| Sections.PlanThreads | compress/deflate.cpp:95-97 | There are as many sections as threads, or fewer and then one for each begun 1048576 bytes. |
| Sections.PlanSections | compress/deflate.cpp:98-108 | Each section has the least multiple of 1048576 bytes with which that many sections reach the end of the input, or what is left of it. |
| Sections.SectionBlocks | compress/deflate.cpp:49-54 | A section of n bytes is cut into n / 1048576 blocks, at least one, all but the last of 1048576 bytes. |
| Sections.BlockCount | compress/deflate.cpp:49-54 | There are as many blocks as begun block sizes at most. |
| Sections.PlanUnique | compress/deflate.cpp:38-118 | The input, the thread count and the settings fix every block of every section. |
| Scheduler.Worker.constructor | compress/deflate.cpp:38-47 | A worker has an empty stream and a dictionary of its own. |
| Scheduler.Worker.Step | compress/deflate.cpp:49-90 | Encodes one block of the source's size, marked if it ends the last section; what was written stays a proper start of the section's blocks. |
| Scheduler.Worker.Finish | compress/deflate.cpp:38-92 | A section's blocks tile it in order, all but the last of the block size and the last of less than two, and the last is marked in the last section. |
| Scheduler.RunSchedule | compress/deflate.cpp:103-108 | Under any schedule every worker stays intact, and one with a turn for each of its blocks has finished its section, whatever the others did. |
| Scheduler.TurnsNeeded | compress/deflate.cpp:49-54 | The turns a worker needs: one for each whole 1048576 bytes of its section, at least one. |
| Scheduler.RunFair | compress/deflate.cpp:103-111 | A schedule with enough turns for all finishes every section without the join. |
| Scheduler.JoinAll | compress/deflate.cpp:109-111 | After the joins every worker has finished its section. |
| Scheduler.StartWorkers | compress/deflate.cpp:101-108 | One worker for each section, the last section flagged, none sharing state with another. |
| Scheduler.WrittenPlan | compress/deflate.cpp:94-111 | Finished workers have written well-formed, chosen blocks of the whole input, and each stream holds its section's bits. |
| Misread.FinalExact | compress/deflate.cpp:153-165 | A final sub-block is decoded, and to its data, if and only if its padding agrees. |
| Misread.EarlyFull | util/bit_util.cpp:114-119 | Read s bits early, a full sub-block has LEN 65536 - 2^s and its payload is shifted by s zero bits. |
| Misread.LateFull | util/bit_util.cpp:114-119 | Read r bits late, it is accepted if and only if the payload starts with r ones; then LEN is 2^(16-r) - 1 and the payload lacks its first r bits. |
| Misread.DecoyExact | compress/deflate.cpp:153-165 | What is read of a misaligned full sub-block is shorter than its data, and a part of them if and only if they start with a run of equal bits whose length the misalignment gives. |
| Misread.DecoyBytes | compress/deflate.cpp:153-165 | Such a run is at least 65280 zero bytes, or, in a section not starting on a byte boundary, 1023 bytes 255. |
| Misread.FullAtBitFive | compress/deflate.cpp:153-160 | A full sub-block at bit 5 is accepted as a zero byte and the first 65279 bytes of its data. |
| Outcome.ShortMisread | compress/deflate.cpp:149-166 | A misaligned final block of at most 65535 bytes is not decoded to its data. |
| Outcome.LongMisread | compress/deflate.cpp:149-166 | Whatever follows it, a longer misaligned block that is no decoy is not decoded to anything that starts with its data. |
| Outcome.RunOutput | compress/deflate.cpp:80-122 | Without decoys, all blocks together decode to their data if and only if the stored ones are aligned. |
| Outcome.PlanNoDecoys | compress/deflate.cpp:49-118 | An input none of whose later block sizes starts with such a run, of zeros only if blocks are static, has no decoys. |
| ZeroHead.ParseCosts | compress/lz77_dictionary.cpp:32-88 | Under codes with nine bits for one group of 16 literals, no copy costs more than its bytes, and the 253 copies of a head of 65280 zeros save 2035 bits each. |
| ZeroHead.HeaderSize | compress/deflate.cpp:264-300 | The header of a dynamic block takes at most 4495 bits. |
| ZeroHead.DynamicNotStored | compress/deflate.cpp:80-90 | A block of less than two block sizes that starts with 65280 zero bytes is never stored under dynamic coding. |
| Compressor.ResultExact | compress/deflate.cpp:80-122 | Every block of the result is decoded where it stands to what was written if and only if the stored blocks are aligned. |
| Compressor.ResultOutput | compress/deflate.cpp:22-133 | Without decoys, the decoder returns the input if and only if the stored blocks are aligned. |
| Compressor.OutputExact | compress/deflate.cpp:22-133 | The same under a condition on the input, the coding type and the thread count alone. |
| Compressor.DynamicOutputExact | compress/deflate.cpp:22-133 | On one thread with dynamic blocks the decoder returns the input if and only if the stored blocks are aligned, for every input. |
| Compressor.LastBlockExact | compress/deflate.cpp:22-133 | The same, for every input, if all blocks but a last one of at most 65535 bytes are aligned. |
| Compressor.ResultDecodes | compress/deflate.cpp:22-133 | With aligned stored blocks the result decodes to the input and stops at the one final block, less than a byte before the end. |
| Compressor.CompressedDecodes | compress/deflate.cpp:85-88 | Always so when every block is compressed. |
| Compressor.AllStoredDecodes | compress/deflate.cpp:80-84 | Always so when every block is stored. |
| Compressor.OneBlockDecodes | compress/deflate.cpp:49-54 | Always so for at most one block size, or less than two on one thread. |
| Compressor.ResultSize | compress/deflate.cpp:80-90 | The result is at most the input, 43 bits for each begun 1048576 bytes, 5 bytes for each 65535, and a partial byte. |
| Compressor.AnyInterleaving | compress/deflate.cpp:94-122 | Any two results for the same input, thread count and settings are the same bytes. |
| Compressor.CompressTwice | compress/deflate.cpp:22-133 | Two runs under any two schedules give the same bytes. |
| Compressor.DeflateCompressor.Compress | compress/deflate.cpp:22-133 | Compresses once per input, under any schedule; the result is of chosen, well-formed blocks and has the properties above. |
| Compressor.DeflateCompressor.RunThreads | compress/deflate.cpp:94-111 | Each slot holds the stream of its own section. |
| Compressor.DeflateCompressor.JoinStreams | compress/deflate.cpp:115-118 | The joined stream is the sections' streams in order. |
| Compressor.DeflateCompressor.Feed | compress/compressor.hpp:24-29 | A new input, to be compressed anew. |
| ZeroRuns.ZeroBits | compress/deflate.cpp:168-217 | The one static block of h distinct bytes and zeros up to 1048576 takes 52865 + 9h bits, at every level. |
| FailingRun.ZerosRejected | compress/deflate.cpp:80-118 | Any result for 1048577 zero bytes on two threads has its stored byte at bit 1 of a byte, and the decoder rejects it. |
| FailingRun.CompressZeros | compress/deflate.cpp:22-133 | The compressor run on that input, under any schedule, gives such a result. |
| OneThreadRun.CounterStored | compress/deflate.cpp:80-84 | 1048576 bytes in which nothing repeats within the window are all literals, so static coding stores them. |
| OneThreadRun.SourceLost | compress/deflate.cpp:80-118 | Any result for the input on one thread has its second block stored at bit 5, and the decoder does not return the input. |
| OneThreadRun.CompressSource | compress/deflate.cpp:22-133 | The compressor run on that input, under any schedule, gives such a result. |
| LostMatch.BothVisited | compress/lz77_dictionary.cpp:43-78 | Both candidates are visited, and the nearer one, of four bytes, is the result. |
| LostMatch.MatchPassedOver | compress/lz77_dictionary.cpp:48-53 | At every level a token at that position is a copy of four bytes, though 258 match at distance 32768. |
| LostMatch.TokenAtHere | compress/lz77_dictionary.cpp:32-88 | At every level the parse of the input has a token there, and it is that copy. |
| LostMatch.RunSource | compress/lz77_dictionary.cpp:8-102 | LZ77 run on the input puts out the items of that parse. |
| ExtraBit.OneBitLonger | compress/deflate.cpp:234-240 | The codes built for "aab" take one bit more than others would, all that the bound allows. |
| ExtraBit.EncodeAab | compress/deflate.cpp:55-78 | LZ77 and the dynamic encoder run on the three bytes write such a block. |

## Left out

- Compressor.OutputExact: does not say what the decoder returns for a misaligned result whose input has a run of zero
  bytes, with static blocks, or of bytes 255, on several threads: it then reads the data after the run as block headers,
  so that the answer depends on every byte that follows.
- HuffmanTrees.HuffmanTree.Calculate: requires that at most 2^maxLen symbols are in use, without which no code of
  that length exists and the source selects items its lists do not have (the alphabets in use have 19, 30 and 286
  symbols, the limits are 7 and 15); with an alphabet of one symbol its depth is 0; where the source ends the process
  on an empty source, the result here is `None`.
- HuffmanTrees.SortByFrequency: an insertion sort in place of the library's sort, whose order among ties is open; the
  encoders take the sort as a parameter, and every theorem holds for every sort by frequency.
- BitStreams.ReverseBits: the table lookup for small widths under a build option; the table is proved equal to the
  loop, but for width 0, which has no table.
- BitStreams.BitStream.constructor: what the vector reserves beyond the request is a parameter, as it is up to the
  library.
- Lz77.LZ77Dictionary.Calc: the chains are immutable lists in a map from keys instead of nodes in a table of 257^3
  heads, so sharing and freeing of nodes are not modelled; the level is a parameter, and one above 3 is excluded,
  as the source then indexes outside its table.
- Compressor.DeflateCompressor.Compress: requires a non-empty input and a positive thread count, as the source
  divides by the number of threads; both counts are unbounded here but cast to `int` there. The schedule the system
  would choose is a parameter.
- Scheduler.RunSchedule: the threads take turns block by block, not instruction by instruction; they share only the
  progress display and the lazily filled table of powers, whose races are not modelled: the powers are a pure function.
- Inflate.DecodeHeader: stricter than section 3.2.7 of RFC 1951, it also rejects the incomplete code of a single
  distance, which this compressor never sends.
- Long source functions are split into methods at their loops; the frame of each is stated in its contract.
- Sizes are unbounded: no overflow of `size_t`, no failure to allocate, and no stream appended to itself.
- The hardware thread count, log lines, sizes in kilobytes, progress display and the bytes counted for it.
- `write_bits_no_rev_table`, a copy of `write_bits` for tests.
- The text the table generators print; only their formulas and loops are modelled.
- The ZIP container, file access, timestamps, the command line, CRC-32, and the store compressor: straight-line
  marshalling or plain copies, much easier than the compressor.
