# The snapshot compressor: DEFLATE in miniz

Capsule snapshots are saved and restored through the vendored `miniz.h`. This project models its
compressor (`tdefl`) and its decompressor (`tinfl`), in the branches that are compiled for Arm64:
byte-wise matching, byte-wise code output, a 64-bit bit buffer in the decompressor, the lazy parser.
The main result is that, whatever the input, the flags, and the division into calls on either side,
decompressing what was compressed gives the input back; and what is written after a full flush
decompresses by itself, without anything that came before.

The files follow the data through the program.

- `Bits`, `Tokens`, `Canonical`, `InflateSpec`, `BlockBits`, `Stream`: the format. Bit strings, literals and
  matches, canonical prefix codes, and what a bit string means: `InflateSpec` is a decoder written down as
  RFC 1951 describes it, one function for each reading position, and everything else is measured by it.
- `OptimalCode`, `MergeTree`, `MinRedundancy`, `RadixSort`, `Limiter`, `LimitCost`, `HuffTable`: the
  compressor's code builder. The in-place routines work on arrays as the original does; Kraft's inequality,
  Huffman's optimality and the Fibonacci bound on depth are proved from scratch.
- `Window`, `LzBuffer`, `Compressor`: the dictionary ring with its mirror, the hash chains and the match
  finder that follows them, the token buffer, and the lazy parser.
- `KnownStreams`: streams written down as bytes, and the tables of RFC 1951, so that the meaning of a bit
  string does not rest on this model's own compressor.
- `BitWriter`, `CodeLengths`, `BlockWriter`, `BlockSize`, `FlushBlock`, `Deflate`, `Adler`: blocks, flushes,
  checksums, and the calls an application makes.
- `DecodeTable`, `DecodeTableBuilder`, `BitReader`, `HuffDecode`, `OutBuffer`, `InflateSteps`, `Inflater`,
  `Decompressor`: the two-level lookup tables and the resumable coroutine. Each place where it can stop is a
  value of `Inflater.Pc`; `InflateSteps.LeadsTo` says that going on from there gives the result that was
  promised at the start, and every step keeps it.
- `Restart`: tokens and blocks without what came before them, which is what a full flush is for.
- `RoundTrip`: the calls that wrap the decompressor, and both halves put together.

Two things came out of the proofs that the source leaves open. `tdefl_flush_block` has a branch for
"the extremely unlikely (if not impossible) case of the compressed block not fitting" and ends in an
assertion that the output buffer is not full: no block, whatever the tokens, can come near the end of that
buffer (`FlushBlock.DynamicBlockFits`), so the branch is never taken and no byte is ever lost. This holds
even for codes whose lengths had to be limited, because limiting makes a code longer by little
(`LimitCost.LimitingIsCheap`).

And the match finder is not quite exhaustive however many probes it is given. An entry of 0 ends a chain,
and positions are kept modulo 65536, so that a position which is a multiple of 65536, the very first one
included, is never found and hides everything before it with the same hash (`Window.ChainCut`). Apart from
that it misses nothing (`Window.Window.LongestIsFound`).

## Model

| member | source | states |
|---|---|---|
| RoundTrip.PiecesThereAndBack | linux/usr/include/miniz.h:3741-3817 | Input cut into any calls with any flush modes, the output cut again into any pieces and decompressed through the 32 KB ring, gives the input back |
| RoundTrip.BackFromRestart | linux/usr/include/miniz.h:3798-3808 | What is written after a full flush decompresses by itself, whatever came before and however the input was divided: it gives the input since that flush |
| RoundTrip.ThereAndBack | linux/usr/include/miniz.h:2484-2497 | A buffer compressed in one call and decompressed in one call comes back exactly when it fits the output buffer; otherwise failure is reported |
| RoundTrip.ThereAndBackByCallback | linux/usr/include/miniz.h:2499-2530 | The same through the callback interface, always successful; of the compressed bytes none is left unused |
| RoundTrip.OutputIsStream | linux/usr/include/miniz.h:2050-2066 | Whatever the compressor calls a finished output passes the decompressor's header check, decodes to the data, carries its checksum behind the last block, and has fewer than eight bits behind that |
| RoundTrip.MemToMem | linux/usr/include/miniz.h:2484-2497 | On any valid stream: the decoded bytes if and only if they fit and the trailer holds their checksum |
| RoundTrip.MemToCallback | linux/usr/include/miniz.h:2499-2530 | On any valid stream: the callback gets exactly the decoded bytes, success if and only if the checksum agrees, and the input reported as used is the stream and less than eight bytes beyond it |
| RoundTrip.InflateChunks | linux/usr/include/miniz.h:2000-2049 | The same when the input arrives in pieces of any sizes, empty ones included: the result does not depend on where calls end |
| RoundTrip.CompressPieces | linux/usr/include/miniz.h:3741-3811 | Any sequence of calls with any flush modes short of finishing, and a last one that finishes: the output decodes to all input in order |
| RoundTrip.CompressFrom | linux/usr/include/miniz.h:3803-3807 | From where the output stands after a full flush, up to the checksum, the finished output is a DEFLATE stream for the later input, through all later flushes |
| Deflate.Deflater.Compress | linux/usr/include/miniz.h:3741-3811 | One call: refused without effect after an error or after the end; otherwise the input is accounted for, a finished output decodes to all input, after a sync or full flush everything so far can be decoded and ends with 00 00 FF FF, and a full flush forgets the window |
| Deflate.CompressToOutput | linux/usr/include/miniz.h:3863-3881 | The output of one whole call decodes to the buffer, with header and checksum if asked for |
| Deflate.NewDeflater | linux/usr/include/miniz.h:3819-3855 | A new compressor is ready, with nothing written and nothing pending |
| Deflate.FinishedDecompresses | linux/usr/include/miniz.h:3188-3202 | Blocks, padding and trailer make a stream that stops at its last block whatever follows, with the checksum in the last four bytes |
| Compressor.Compressor.CompressNormal | linux/usr/include/miniz.h:3577-3718 | Nothing is lost at any step: written blocks, recorded tokens and at most one byte of a pending match expand to the input up to the current position; with a flush it reaches the end, without one it stays less than a match length behind |
| Compressor.Compressor.Decide | linux/usr/include/miniz.h:3636-3713 | One step of the parser: what is found at the position is what the search promises or nothing if that is dropped, it is recorded by the lazy rule, and a block ends exactly when the tokens say so |
| Compressor.Compressor.Record | linux/usr/include/miniz.h:3666-3694 | The lazy rule: a pending match is recorded only if the one found at the next byte is no longer, otherwise its first byte is and the longer match waits or, from 128 bytes on, is recorded too; the tokens stay lossless |
| Compressor.KeptParsed | linux/usr/include/miniz.h:3666-3699 | No step of the parser, lazy or not, records or leaves pending a match that reaches back behind the last full flush |
| Compressor.Compressor.ChooseMatch | linux/usr/include/miniz.h:3636-3665 | The search result, a run of one byte or what the hash chain has, or nothing if it is 3 bytes at 8 KB or more, reaches the first slot, or is filtered; a match repeats earlier input |
| Compressor.Compressor.FlushIfFull | linux/usr/include/miniz.h:3700-3713 | A block is written exactly when the token buffer is nearly full or 31 KB do not compress; then there is room for the next step, and the output accounts for the rest |
| Compressor.AddMatch | linux/usr/include/miniz.h:3547-3575 | Recording a match whose bytes repeat earlier input extends what the tokens expand to by exactly these bytes, overlaps included |
| Window.Window.Fill | linux/usr/include/miniz.h:3582-3632 | Taking input in keeps the ring and its mirror equal to the live window, fills the lookahead as far as there is input, and enters every new position into the chain of its hash |
| Window.Window.InsertHash | linux/usr/include/miniz.h:3603-3606 | Then each hash slot has the latest position with that hash, and each position in reach the latest one before it with the same |
| Window.Rolls | linux/usr/include/miniz.h:3590-3603 | The rolling hash is that of the last three bytes, whatever came before |
| Window.Window.FindMatch | linux/usr/include/miniz.h:3307-3352 | At least the first `probes - 1` candidates on the hash chain are considered, none of them matches more bytes than the result, and the result is the first of the candidates with that length or what it was before |
| Window.Window.LongestIsFound | linux/usr/include/miniz.h:3307-3352 | With enough probes no earlier position in the dictionary matches more bytes than the result, unless a position that is a multiple of 65536 cuts the chain |
| Window.OnTheChain | linux/usr/include/miniz.h:3321-3325 | Every earlier position in reach with the same hash is on the chain, in order, up to a position that is a multiple of 65536 |
| Window.ChainCut | linux/usr/include/miniz.h:3321-3323 | Such a position reads as the end: it hides itself and everything before it, position 0 included |
| Window.Window.RunLength | linux/usr/include/miniz.h:3643-3650 | How far the byte before the lookahead repeats, and no less |
| Window.Window.Forget | linux/usr/include/miniz.h:3803-3807 | A full flush leaves empty chains and an empty dictionary that starts at the end of the input |
| Window.StoreKeepsLive | linux/usr/include/miniz.h:3598-3602 | Storing a byte in its ring slot and, near the start, in the mirror keeps every live position readable |
| LzBuffer.Buffer.RecordLiteral | linux/usr/include/miniz.h:3535-3545 | The tokens become the old ones and the literal, and the symbol counts follow |
| LzBuffer.Buffer.RecordMatch | linux/usr/include/miniz.h:3547-3575 | The tokens become the old ones and the match, and both counts follow |
| LzBuffer.Buffer.Finish | linux/usr/include/miniz.h:3139-3140 | Completing the last flag byte, or dropping it, leaves bytes that read as exactly the recorded tokens |
| BlockWriter.Blocks.CompressLzCodes | linux/usr/include/miniz.h:3067-3107 | The bits written are those of the recorded tokens, in order, and the end-of-block symbol |
| BlockWriter.Blocks.CompressStatic | linux/usr/include/miniz.h:2945-2964 | A block with the fixed codes |
| BlockWriter.Blocks.CompressDynamic | linux/usr/include/miniz.h:2859-2943 | A block with codes built from the counts, nearly as short as any, whose header describes these codes and has nothing in it that could be left out: no zero lengths at an end, every run packed, and the code for these minimal unless it was limited |
| CodeLengths.Pack | linux/usr/include/miniz.h:2815-2915 | Unpacking the packed lengths gives the lengths back, runs across both codes included; they are packed run by run, each run in as few pieces as its counters allow; the symbol counts are those of the packed form and the array does not overflow |
| CodeLengths.Packer.Add | linux/usr/include/miniz.h:2891-2911 | One more length keeps packed and pending lengths together equal to what has been added, and the counters equal to the rest of its last run |
| BlockBits.FormDecodes | linux/usr/include/miniz.h:3111-3117 | A compressed block of either kind decodes to the expansion of its tokens and stops at its end-of-block symbol, before whatever follows |
| BlockBits.StoredBlockDecodes | linux/usr/include/miniz.h:3160-3178 | A stored block decodes to its bytes wherever in a byte it starts |
| BlockBits.OpsDecode | linux/usr/include/miniz.h:2202-2222 | Reading run-length coded lengths gives what unpacking gives, from any intermediate point |
| BlockBits.BodyDecodes | linux/usr/include/miniz.h:2230-2384 | Coded tokens decode to their expansion for any pair of prefix codes that cover them |
| BlockBits.HeaderDecodes | linux/usr/include/miniz.h:2919-2942 | A dynamic header is read back as the two lists of code lengths it was made from |
| InflateSpec.SwizzleOrder | linux/usr/include/miniz.h:2018-2019 | The order of the code length code is that of RFC 1951: 16, 17, 18, 0, and then outwards from 8 |
| InflateSpec.RepeatRanges | linux/usr/include/miniz.h:2202-2222 | Runs of code lengths are 3 to 6, 3 to 10 and 11 to 138 long, as RFC 1951 has it |
| Tokens.LengthRoundTrip | linux/usr/include/miniz.h:2005-2010 | Symbol and extra bits of every length 3 to 258 give the length back from the decoder's tables |
| Tokens.LengthSymIsLast | linux/usr/include/miniz.h:2536-2555 | The symbol of a length is the last one whose base does not exceed it, so that each length has one coding, and 258 its own symbol |
| Tokens.LengthTable | linux/usr/include/miniz.h:2005-2010 | Each base follows on what the symbol before it covers |
| Tokens.DistRoundTrip | linux/usr/include/miniz.h:2011-2018 | The same for every distance 1 to 32768 |
| Tokens.DistSymIsLast | linux/usr/include/miniz.h:2569-2634 | The same for distances |
| Tokens.DistTable | linux/usr/include/miniz.h:2011-2017 | And for their bases |
| BlockSize.DynamicHardlyLonger | linux/usr/include/miniz.h:2870-2871 | With limited lengths or not, the made-to-measure codes take at most about 1.2 bits per token more than the fixed ones |
| FlushBlock.DynamicBlockFits | linux/usr/include/miniz.h:1211-1226 | A block of any tokens the token buffer can hold fits the output buffer, with room for a trailer |
| FlushBlock.FixedBlockFits | linux/usr/include/miniz.h:3180-3186 | So does a block with the fixed codes |
| FlushBlock.Output.FirstTry | linux/usr/include/miniz.h:3153-3156 | The first attempt at a block always succeeds, so the fallback is never needed |
| FlushBlock.Output.Choose | linux/usr/include/miniz.h:3158-3186 | Whichever form is chosen, the bits written read as the expansion of the tokens, and none is lost |
| FlushBlock.Output.FlushBlock | linux/usr/include/miniz.h:3119-3247 | The output so far decodes to the data so far and stays so; the new block is stored if that is asked for or compression does not pay, and the window still has its bytes, and otherwise compressed with the codes the flags and its size call for; finishing ends the stream, other flushes end at a whole byte with an empty stored block |
| FlushBlock.ChosenIsNotLonger | linux/usr/include/miniz.h:3158-3178 | A block is never longer than its bytes stored as they are, as long as the window still has them |
| FlushBlock.ChosenType | linux/usr/include/miniz.h:3119-3158 | The type bits of a block say which form was chosen, and this is a fixed block only for fewer than 48 bytes or if it is asked for |
| FlushBlock.SinkGrows | linux/usr/include/miniz.h:3226-3229 | Full bytes handed over and the bits kept back make the old output continued by the new block |
| Stream.OneMoreBlock | linux/usr/include/miniz.h:2068-2385 | A stream that reads as some data, followed by a block, reads as the data continued |
| Restart.RestartGrows | linux/usr/include/miniz.h:3119-3247 | One more block, whichever form was chosen for it, keeps the output readable from the last restart on |
| Restart.ExpandBehind | linux/usr/include/miniz.h:2336-2384 | Tokens that do not reach back behind a point expand to the same bytes with or without what is before it |
| KnownStreams.StoredStream | linux/usr/include/miniz.h:2071-2110 | Bytes behind a stored block's header, written down byte by byte, decode to themselves, and what follows is left |
| KnownStreams.FixedCodeTable | linux/usr/include/miniz.h:2115-2128 | The fixed code words are those tabulated in section 3.2.6 of RFC 1951 |
| KnownStreams.FixedStream | linux/usr/include/miniz.h:2230-2384 | Nine given bytes, with literals and a match, decode to the eighteen bytes they stand for |
| KnownStreams.DynamicStream | linux/usr/include/miniz.h:2129-2384 | Thirteen given bytes with codes of their own decode to the two bytes they stand for |
| HuffTable.Table.Optimize | linux/usr/include/miniz.h:2748-2797 | Exactly the used symbols get code words, frequent ones no longer than rare ones, within the limit, complete for two or more symbols, canonical and bit-reversed; minimal unless a word reached the limit, nearly minimal even then |
| RadixSort.RadixSortSyms | linux/usr/include/miniz.h:2644-2674 | The result is a permutation in order of the keys, also when the second pass is skipped |
| MinRedundancy.CalculateMinimumRedundancy | linux/usr/include/miniz.h:2678-2721 | In place, the frequencies become lengths that do not increase, fill the code exactly, cost what Huffman's process costs, and are long only for rare symbols |
| MinRedundancy.NothingCheaper | linux/usr/include/miniz.h:2676-2678 | No prefix code whatever encodes these frequencies in fewer bits |
| OptimalCode.KraftInequality | linux/usr/include/miniz.h:2676-2678 | A prefix code is no denser than the binary tree |
| OptimalCode.HuffmanIsOptimal | linux/usr/include/miniz.h:2676-2678 | No lengths that obey Kraft's inequality beat merging the two lightest again and again |
| MergeTree.DepthNeedsWeight | linux/usr/include/miniz.h:2724 | A word of length d needs a total of at least Fib(d + 2) |
| MergeTree.DepthAtMost22 | linux/usr/include/miniz.h:2751 | With 16-bit totals no word is longer than 22, which keeps `num_codes` in range |
| MergeTree.LeafShare | linux/usr/include/miniz.h:2678-2721 | A symbol with a word of length d has at most the Fib(d + 1)-th part of the total |
| MinRedundancy.PicksAreLightest | linux/usr/include/miniz.h:2690-2702 | The two items taken from the queues are the two lightest that are left |
| Limiter.EnforceMaxCodeSize | linux/usr/include/miniz.h:2725-2746 | From a complete code: the same number of words, none beyond the limit, exactly complete again, unchanged if nothing was too long; only few words get longer, from a certain length on |
| Limiter.DonorExists | linux/usr/include/miniz.h:2737-2743 | While the code is overfull there is a shorter word to split |
| Limiter.Repair | linux/usr/include/miniz.h:2736-2744 | One repair keeps the number of words and lowers the scaled Kraft sum by exactly one |
| LimitCost.LimitingIsCheap | linux/usr/include/miniz.h:2771-2786 | Limiting adds at most 2n/538 of the message length to its cost, n being the number of symbols |
| Canonical.CodesArePrefixFree | linux/usr/include/miniz.h:2788-2796 | Canonical codes within Kraft's bound are prefix free |
| Canonical.FullCodeIsTotal | linux/usr/include/miniz.h:2157-2164 | With a full code every fifteen bits start with a code word |
| Canonical.DecodeWritten | linux/usr/include/miniz.h:2788-2796 | Decoding a written code word gives its symbol |
| BitWriter.Writer.PutBits | linux/usr/include/miniz.h:2799-2813 | The field is appended to the bits written; bytes beyond the end of the buffer are dropped and nothing else |
| BitWriter.Writer.Rewind | linux/usr/include/miniz.h:3162-3164 | Restoring the saved position takes the output back to what it was |
| DecodeTableBuilder.Table.Build | linux/usr/include/miniz.h:2144-2200 | Accepts the lengths if and only if they are those of a decodable code, and then builds a table for it; no index leaves an array |
| DecodeTable.LookupTotal | linux/usr/include/miniz.h:2260-2273 | With a full code, fifteen bits are enough for lookup and tree walk to find the one symbol that comes next, and its length |
| DecodeTable.LookupDecodes | linux/usr/include/miniz.h:1983-1994 | Whenever a symbol's code word comes next, lookup and tree walk find the symbol and its length |
| DecodeTable.OneMoreNode | linux/usr/include/miniz.h:2178-2195 | The nodes of a complete code never outgrow the tree array |
| HuffDecode.Decoder.Enough | linux/usr/include/miniz.h:1943-1957 | The test for a complete symbol succeeds exactly when its code word is loaded |
| HuffDecode.Decoder.Decode | linux/usr/include/miniz.h:1971-1998 | The next symbol and exactly its bits, or a stop that loses nothing when the input really does not hold the symbol |
| BitReader.Reader.GetBits | linux/usr/include/miniz.h:1925-1934 | The next field, or a stop that loses nothing |
| OutBuffer.Buffer.CopyFast | linux/usr/include/miniz.h:2370-2382 | Copying three bytes at a time gives the overlapping copy that the format prescribes |
| OutBuffer.Buffer.Back | linux/usr/include/miniz.h:2337-2348 | In the ring as in the plain buffer, the byte at a distance is that byte of the output |
| Inflater.Inflater.SymsFast | linux/usr/include/miniz.h:2240-2309 | Two symbols at a time from one refill lead to the same result as one by one |
| Inflater.Inflater.CopySlowStep | linux/usr/include/miniz.h:2340-2350 | A match that runs into the end of the buffer is copied bytewise across calls |
| Inflater.Inflater.Step | linux/usr/include/miniz.h:2050-2398 | From any place, one step reads, writes or moves on, and still leads to the promised result; it stops only for want of input that is still to come, when fewer bits are left than come next, or of room for a byte that is due |
| Inflater.Inflater.Resume | linux/usr/include/miniz.h:2029-2050 | Going on from wherever the last call stopped ends for the same reasons and no others |
| InflateSteps.Grows | linux/usr/include/miniz.h:2068-2385 | What has been produced at any place is the beginning of the result |
| Decompressor.Decompressor.Decompress | linux/usr/include/miniz.h:2000-2437 | One call: the new output follows the old; more input is asked for only when all of it is used up and what comes next cannot be told without it, more room only when there is none; at the end all output is there, the checksum has been compared, and the input reported as used reaches less than eight bytes beyond the stream |
| Decompressor.AllShifted | linux/usr/include/miniz.h:2388-2395 | The four trailer bytes, shifted into a register that starts as 1, are the big-endian number |
| Adler.Adler32 | linux/usr/include/miniz.h:1392-1415 | The deferred modulo gives the byte-by-byte checksum for every buffer and every starting value |
| Adler.ChecksumIs | linux/usr/include/miniz.h:1392-1415 | From 1 on: 1 plus the sum of the bytes, and their number plus the sum weighted by position, both modulo 65521 |
| Adler.ChecksumConcat | linux/usr/include/miniz.h:2417-2434 | The checksum of pieces continued from one another is that of the whole |
| Adler.BlockFits | linux/usr/include/miniz.h:1394-1412 | No 32-bit sum overflows within 5552 bytes |

## Left out

- Decompressor.Decompressor.Decompress: is proved on valid streams. The branches that answer `FAILED` on damaged data, and the zero bytes read past the end of the input, are not modelled, because the specification gives such streams no meaning; a trailer that does not match is modelled.
- RoundTrip.MemToMem: literal/length symbols 286 and 287 and distance symbols 30 and 31 make a stream invalid here, as the format says; the code would take them for lengths and distances of zero.
- RoundTrip.InflateChunks: output goes through a 32 KB ring, which is the size the source's callers use; other powers of two differ only in the size.
- Deflate.Deflater.Compress: output goes to a callback that always accepts it. Output to a caller's buffer (`m_output_flush_remaining`, `tdefl_flush_output_buffer`), refusals by the callback and the checks for null pointers are not modelled.
- Compressor.Compressor.CompressNormal: stream positions are unbounded numbers; the source lets 32-bit positions wrap, which changes no ring index and no distance.
- Tokens.DistRoundTrip: the source's tables of 256, 512 and 128 entries for lengths and distances are given as formulas by range.
- BitWriter.Writer.PutBits: fields are put into the bit buffer by addition; the source uses a bitwise or of parts that do not overlap.
- The raw header, the three table sizes and the code lengths of a dynamic block are sequences in `Inflater` rather than fixed arrays; their bounds are proved.
- `tinfl_decompress_mem_to_heap` and `tdefl_compress_mem_to_heap`: growing a buffer by reallocation.
- `tdefl_compress_fast`, the 64-bit code output and the word-wise match finder: not compiled for the target.
- The zlib-style wrappers (`mz_deflate`, `mz_inflate`), CRC-32 and PNG output.
- The ZIP archive half of `miniz.h` and `zip.c`: record layout, name index, entry deletion.
- The JSON library `frozen`.
- Files, clocks, memory allocation, the capsule daemon and the web server.
