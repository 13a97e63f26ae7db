# Decoders, a small kernel and a work-stealing list, verified

A Dafny model of the algorithmic core of three parts of the repository, with proofs of what they are
for. Each part is written in the shape of its source: structures whose fields are updated become
classes, tables and buffers are arrays filled in place by loops, and every such method is proved
against functions that say what the result means. Lemmas then prove properties of those functions for
all inputs and all runs.

**Entropy decoders and image reconstruction** (`p3/exp5/aes/ta/sod_img_reader.h`)

- `BitOps`, `BitReverse`, `BitStream`: C's bit operators, and the bit stream both entropy decoders read.
- `Canonical`: canonical prefix codes, with the bit-at-a-time decoder as the reference.
- `ZTables`, `ZReader`, `ZBuf`: the inflate tables, the refilling bit reader, and the decoder with its
  growing buffer. `Deflate` is the format (RFC 1951) as a function from bits to output, which the
  decoder is proved against; `DeflateCoding`, `DynamicCoding`, `InflateStreams` and `InflateTheorems`
  relate it to an encoder, from single symbols up to streams of any blocks; `DeflateTables` fixes the
  tables that both sides share by the rules of the format.
- `JpegTables`, `JpegReader`: JPEG's Huffman tables, with the 9-bit table and the table that decodes a
  symbol and its coefficient at once (ITU-T T.81, Annex C and section F.2.2); `JpegClash`: which codes
  they read wrongly; `JpegBlock`: a whole block of a baseline scan; `JpegCoding`: the encoder it inverts.
- `GifLzw`, `GifRaster`: the LZW codes as a dictionary of strings (GIF89a, Appendix F), the linked-prefix
  table that stands for it, and drawing into plain and interlaced images; `GifCoding`: what any LZW encoder
  writes is read back.
- `PngFilters`, `PngPixels`, `PngImage`, `PngExpand`, `PngRaw`, `PngInterlace`: the PNG row filters,
  alpha, samples of 1, 2 and 4 bits unpacked in place, 16-bit samples, and the seven passes (PNG
  specification, Second Edition, sections 8 and 9).

**The small kernel** (`p1/p1_6`, `p1/p1-5-2`)

- `PageTree` says what four-level page tables mean and what keeps the trees of different tasks apart;
  `PageUpdates` proves the four changes the code makes; `PageTables` and `AddressSpaces` are the
  allocator, the table builder and the fork copy; `KernelTasks` puts tasks together: boot, fork,
  program load and fault all keep the invariant from which `Isolation` follows, so it holds in every
  state reached by them in any order. Frames carry ghost roles (free, kernel, a task's table, a
  task's memory).
- `SchedulerModel` gives the effect of each entry point as a function; `Scheduler` is the code over its
  table of task structures, proved equal to those functions; `SchedulerRuns`, `SchedulerLives`,
  `SchedulerFairness` and `SchedulerSleep` prove what holds in all runs. In the source a task switched away from is suspended
  inside `_schedule` and a new one starts in `schedule_tail`; in both cases the next thing that happens
  is that the task now current enables preemption, which is what `Reschedule` says.

**The work-stealing list** (`p2/exp2`)

- `SortedList` (with `Sequences`): the ring of nodes with insertion (the sorting loop is compiled out, so elements are
  put in front, unlike what the header's comment says), deletion, lookup and length.
- `WorkStealing`: any number of threads that claim parts with a test-and-set and link elements write by
  write, as steps that interleave in any order.

**`strtol`** (`p3/exp5/aes/ta/ctype.h`): `StrTol`, for longs of any width.

Results about the source that a reader may not expect:

- A JPEG code with 256 symbols of at most nine bits each (`ClashingTable` is one) is misread wherever its
  last symbol comes, because the number of that symbol is the marker for "not accelerated".
  `AccelerableExactly`: it happens to these codes and to no others; `HuffDecode` says what comes instead.
- A PNG header of colour type 2 or 6 with 4-bit samples is accepted, and the decoder then fails its
  assertion on the width of a row, at any width; on no other header does it (`AssertionHolds`).
- `sleep_state(n)` with `n < 1` is never undone by the timer.
- A `copy_process` that finds no page leaves preemption disabled. `FailedForksAddUp`: in every run a task's
  failed forks are what its `preempt_count` is too high by, so that no tick ever takes the processor from
  it again (`FailedForkNeverPreempted`).
- `p1/p1_6` checks in many places that a page was found, and never needs to: with 64 tasks and 16 places in
  each of their lists memory cannot run out (`FramesLeft`), so every fork is whole. It does run out in
  `p1/p1-5-2`, where a user program can take pages without bound (`sys.c:15-21`), and a failed fork with the
  consequences above is possible there.
- Counts for a JPEG table that add up to more than 256 are not refused, and their sizes are written past the
  array (`Build`; `OverrunTable` is such a table).
- `SortedList_length` does not return exactly when a ring through the first element misses the head
  (`ReturnsExactly`), as after inserting the first element again (`InsertAgain`); and it counts the elements of
  what is no ring if only the first element's `prev` is wrong (`Length`, `CountsNoRing`).
- `strtol` takes the prefix `0x` even when no digit follows, and then reports that it has read nothing.
  `EndStandard`: nowhere else does it end where the C standard does not, and the number is always the
  standard's (`NumberStandard`).

Loops that may run for ever on zero padding take a bound (`fuel`); `FuelIrrelevant` shows that it never
changes an answer. Unrolled statements of the source that differ in a constant only are written as a
loop over that constant.

Verify with `dafny verify dfyconfig.toml` (Dafny 4.11).

## Model

| member | source | states |
|---|---|---|
| Canonical.AtMostOneMatch | p3/exp5/aes/ta/sod_img_reader.h:4024-4069 | the code words the tables are built from are prefix-free as decoded: no 16-bit window begins with two of them |
| Canonical.PrefixFree | p3/exp5/aes/ta/sod_img_reader.h:4024-4069 | no code word of a code that satisfies the Kraft inequality begins another one |
| Canonical.CodeFits | p3/exp5/aes/ta/sod_img_reader.h:4043-4045 | every code word of a buildable code fits its length |
| Canonical.HiIsKraft | p3/exp5/aes/ta/sod_img_reader.h:4038-4049 | the windows owned by all code words number the Kraft sum |
| Canonical.SlotInjective | p3/exp5/aes/ta/sod_img_reader.h:4054-4057 | the slots computed for symbols sorted by length never collide |
| Canonical.DecodeIsMatch | p3/exp5/aes/ta/sod_img_reader.h:4116-4146 | what the bit-at-a-time decoder of RFC 1951 section 3.2.2 returns is the one symbol whose code word the stream begins with |
| Canonical.MatchIsDecode | p3/exp5/aes/ta/sod_img_reader.h:4116-4146 | conversely that decoder returns any symbol whose code word comes next |
| Canonical.NoCodeBeyondKraft | p3/exp5/aes/ta/sod_img_reader.h:4116-4146 | it finds no symbol exactly on the windows beyond the Kraft sum |
| Canonical.WordsInOrder | p3/exp5/aes/ta/sod_img_reader.h:4035-4050 | the code words in order of length, then of symbol, follow each other without a gap from all zeros on (RFC 1951 section 3.2.2), so there is only one such code |
| BitReverse.ReverseBitsIsReversal | p3/exp5/aes/ta/sod_img_reader.h:4007-4022 | the four masked swaps and the shift reverse the low bits of any number |
| ZTables.ZHuffman.Build | p3/exp5/aes/ta/sod_img_reader.h:4024-4069 | for every list of lengths up to 15 the builder succeeds exactly when the Kraft inequality holds, and then all its tables represent the canonical code |
| ZTables.ZHuffman.AssignBounds | p3/exp5/aes/ta/sod_img_reader.h:4035-4050 | the overflow tests reject exactly the over-subscribed lengths; firstcode, firstsymbol and maxcode come out as the canonical code prescribes |
| ZTables.ZHuffman.PlaceSymbol | p3/exp5/aes/ta/sod_img_reader.h:4051-4067 | one symbol goes to its own slot and to every fast entry its code word begins, and to no other |
| ZTables.ZHuffman.FillFast | p3/exp5/aes/ta/sod_img_reader.h:4059-4063 | the stride loop writes just the nine-bit windows that begin with the symbol's code word |
| ZTables.FastEntryPacks | p3/exp5/aes/ta/sod_img_reader.h:4055-4055 | a packed fast entry gives back length and symbol and is never zero |
| ZTables.ShortMatchLow | p3/exp5/aes/ta/sod_img_reader.h:4059-4063 | the windows a short code word begins are those whose low bits are its reversal |
| ZReader.BitReader.Get8 | p3/exp5/aes/ta/sod_img_reader.h:4091-4095 | past the end of the input the reader supplies zeros |
| ZReader.BitReader.FillBits | p3/exp5/aes/ta/sod_img_reader.h:4097-4104 | refilling never changes the position in the stream and leaves more than 24 bits, with the buffer below 2^num_bits |
| ZReader.BitReader.Receive | p3/exp5/aes/ta/sod_img_reader.h:4106-4114 | a read returns the next n bits of the stream whatever has been buffered, and moves exactly n on |
| ZReader.BitReader.HuffmanDecode | p3/exp5/aes/ta/sod_img_reader.h:4134-4146 | fast table or slow path: the symbol and length of the bit-at-a-time decoder, and -1 exactly when no code word comes next |
| ZReader.BitReader.HuffmanDecodeSlow | p3/exp5/aes/ta/sod_img_reader.h:4116-4132 | the scan over maxcode finds the same symbol, and the entry it reads has the size it asserts |
| ZReader.FastHit | p3/exp5/aes/ta/sod_img_reader.h:4139-4145 | a nonzero fast entry packs what the reference decoder finds |
| ZReader.FastMiss | p3/exp5/aes/ta/sod_img_reader.h:4139-4145 | a zero fast entry means that no code word of up to nine bits comes next |
| ZReader.BitReader.Drain | p3/exp5/aes/ta/sod_img_reader.h:4282-4288 | at most three whole bytes are drained from the bit buffer, and they are the next bytes of the stream |
| ZReader.BitReader.ReadHeader | p3/exp5/aes/ta/sod_img_reader.h:4279-4291 | a stored block always gets its four header bytes from the next byte boundary and leaves no bits held |
| ZBuf.ZBuf.Expand | p3/exp5/aes/ta/sod_img_reader.h:4148-4165 | growing keeps the output, doubles until the new bytes fit, and fails only on a fixed buffer or at the memory limit |
| ZBuf.GrowDoubles | p3/exp5/aes/ta/sod_img_reader.h:4148-4165 | the grown capacity is the first one doubled as often as the bytes need, and no more often |
| ZBuf.ZBuf.CopyRun | p3/exp5/aes/ta/sod_img_reader.h:4214-4217 | a run of one byte fills just its bytes |
| ZBuf.ZBuf.CopyForward | p3/exp5/aes/ta/sod_img_reader.h:4218-4220 | the forward copy that may read what it has just written yields the LZ77 copy |
| ZBuf.ZBuf.CopyBack | p3/exp5/aes/ta/sod_img_reader.h:4208-4220 | both copy branches append the LZ77 copy, in bounds, whether or not the buffer had to grow |
| ZBuf.ZBuf.ParseSymbol | p3/exp5/aes/ta/sod_img_reader.h:4185-4221 | one symbol of a block, with its extra bits and copy, does what RFC 1951 section 3.2.3 prescribes or stops with the prescribed status |
| ZBuf.ZBuf.ParseHuffmanBlock | p3/exp5/aes/ta/sod_img_reader.h:4181-4223 | a whole block agrees with the format's meaning of the same bits |
| ZBuf.ZBuf.ReadStoredLength | p3/exp5/aes/ta/sod_img_reader.h:4275-4295 | a stored block is accepted exactly when its two length fields are complements and the input holds the data |
| ZBuf.ZBuf.ParseUncompressedBlock | p3/exp5/aes/ta/sod_img_reader.h:4275-4302 | a stored block appends the bytes from the next byte boundary |
| ZBuf.ZBuf.ReadLengthRun | p3/exp5/aes/ta/sod_img_reader.h:4246-4267 | one symbol of the code length alphabet appends the run the format gives it and never overruns the list |
| ZBuf.ZBuf.ComputeHuffmanCodes | p3/exp5/aes/ta/sod_img_reader.h:4225-4273 | a dynamic block's two codes are read as the format function says, to the same bit, and refused exactly when it refuses them; `HeaderRoundTrip` and `HeaderSound` say which codes those are |
| ZBuf.ZBuf.ParseZlibHeader | p3/exp5/aes/ta/sod_img_reader.h:4304-4315 | the two header bytes are accepted exactly by the check of RFC 1950 section 2.2 |
| ZBuf.ZBuf.ParseZlib | p3/exp5/aes/ta/sod_img_reader.h:4346-4375 | the stream's blocks up to the final one agree with the format |
| ZBuf.FixedCodesDecodable | p3/exp5/aes/ta/sod_img_reader.h:4317-4332 | both default codes can be built |
| ZBuf.DecodeMalloc | p3/exp5/aes/ta/sod_img_reader.h:4387-4424 | inflating succeeds with exactly the format's output; the initial size matters only in whether the allocator can serve the doublings |
| ZBuf.DecodeBuffer | p3/exp5/aes/ta/sod_img_reader.h:4426-4435 | into a caller's buffer: the output and its length if it fits, and -1 otherwise |
| DeflateCoding.PackCarries | p3/exp5/aes/ta/sod_img_reader.h:4097-4114 | bits packed into bytes are carried by the stream the reader reads |
| DeflateCoding.SymbolsRoundTrip | p3/exp5/aes/ta/sod_img_reader.h:4134-4146 | encoding any sequence of symbols of a buildable code and decoding as many gives them back and consumes just their bits |
| DeflateCoding.BlockRoundTrip | p3/exp5/aes/ta/sod_img_reader.h:4181-4223 | the encoding of any tokens with any two codes decodes to the tokens' LZ77 meaning |
| DeflateCoding.BlockSound | p3/exp5/aes/ta/sod_img_reader.h:4181-4223 | conversely, whatever a block decodes to is the LZ77 meaning of tokens whose encoding is exactly the bits consumed |
| DeflateTables.LengthsTile | p3/exp5/aes/ta/sod_img_reader.h:4167-4173 | the lengths of each symbol end where those of the next begin, from 3 to 258 |
| DeflateTables.DistancesTile | p3/exp5/aes/ta/sod_img_reader.h:4175-4179 | so do the distances, from 1 to 32768 |
| DeflateTables.LengthExtraRule | p3/exp5/aes/ta/sod_img_reader.h:4172-4173 | four length symbols for each number of extra bits, once there are any |
| DeflateTables.DistExtraRule | p3/exp5/aes/ta/sod_img_reader.h:4178-4179 | two distance symbols for each number of extra bits |
| DeflateTables.EveryCopy | p3/exp5/aes/ta/sod_img_reader.h:4167-4221 | every length from 3 to 258 with every distance from 1 to 32768 has a token that means just that copy, byte by byte |
| DeflateTables.EveryToken | p3/exp5/aes/ta/sod_img_reader.h:4167-4221 | and every token that can be sent is such a copy or a literal |
| DeflateTables.CopyInBlock | p3/exp5/aes/ta/sod_img_reader.h:4181-4223 | wherever the bits for a copy are in a block, it goes on behind them with that copy made |
| DeflateTables.CopiedOnce | p3/exp5/aes/ta/sod_img_reader.h:4214-4220 | only one string is that copy |
| DeflateTables.FixedWords | p3/exp5/aes/ta/sod_img_reader.h:4317-4332 | the words of the fixed literal/length code are those of RFC 1951 section 3.2.6 |
| DeflateTables.FixedDistanceWords | p3/exp5/aes/ta/sod_img_reader.h:4317-4332 | and its distances are five-bit numbers |
| DeflateTables.OrderRule | p3/exp5/aes/ta/sod_img_reader.h:4227-4227 | code lengths are sent with the repeating symbols and zero first, then from the middle outwards |
| DeflateTables.RunAdds | p3/exp5/aes/ta/sod_img_reader.h:4249-4263 | which numbers of lengths each repeating symbol can add, and which length it repeats |
| DeflateTables.HeaderBytes | p3/exp5/aes/ta/sod_img_reader.h:4304-4315 | the header RFC 1950 asks for is accepted for every window and level, and no other second byte but for check bits of 31 in place of 0 |
| DynamicCoding.RunRoundTrip | p3/exp5/aes/ta/sod_img_reader.h:4246-4267 | one run of code lengths is read where its symbol and extra bits are sent |
| DynamicCoding.RunsRoundTrip | p3/exp5/aes/ta/sod_img_reader.h:4245-4268 | any code lengths sent as runs in any way, under any buildable code for them, are read back |
| DynamicCoding.RunsSound | p3/exp5/aes/ta/sod_img_reader.h:4245-4268 | conversely, whatever code lengths are read, the bits they came from are runs that stand for them |
| DynamicCoding.CodeCarries | p3/exp5/aes/ta/sod_img_reader.h:4227-4243 | the three-bit lengths in the permuted order give the code length code, and the ones not sent are zero |
| DynamicCoding.HeaderRoundTrip | p3/exp5/aes/ta/sod_img_reader.h:4225-4273 | any header of a dynamic block (RFC 1951, section 3.2.7) is read as the two codes it stands for, to its last bit |
| DynamicCoding.HeaderSound | p3/exp5/aes/ta/sod_img_reader.h:4225-4273 | conversely, whatever two codes are accepted, the bits taken are a header that stands for them |
| InflateStreams.PieceRoundTrip | p3/exp5/aes/ta/sod_img_reader.h:4346-4375 | a stored, fixed or dynamic block is decoded to what it means, wherever it stands |
| InflateStreams.PieceSound | p3/exp5/aes/ta/sod_img_reader.h:4346-4375 | conversely, whatever a block is decoded to is what some such block means whose bits are the ones taken |
| InflateStreams.InflateRoundTrip | p3/exp5/aes/ta/sod_img_reader.h:4346-4375 | any list of stored, fixed and dynamic blocks, behind a good zlib header if there is to be one, inflates to what the blocks mean together |
| InflateStreams.InflateSound | p3/exp5/aes/ta/sod_img_reader.h:4346-4375 | conversely, whatever inflates is such a list, its last block the first one marked final, and comes out as what the blocks mean |
| InflateStreams.InflatesExactly | p3/exp5/aes/ta/sod_img_reader.h:4346-4375 | inflating succeeds exactly on such streams |
| InflateStreams.PackedRoundTrip | p3/exp5/aes/ta/sod_img_reader.h:4346-4375 | any list of blocks, packed into bytes, comes back |
| InflateTheorems.FuelIrrelevant | p3/exp5/aes/ta/sod_img_reader.h:4346-4375 | the bound on symbols and blocks never changes an answer |
| InflateTheorems.StoredRoundTrip | p3/exp5/aes/ta/sod_img_reader.h:4275-4302 | any string up to 65535 bytes, stored and inflated, comes back |
| InflateTheorems.FixedRoundTrip | p3/exp5/aes/ta/sod_img_reader.h:4346-4375 | any string, sent as literals of the fixed code and inflated, comes back |
| JpegTables.JHuffman.Build | p3/exp5/aes/ta/sod_img_reader.h:1928-1968 | for all counts of the 16 lengths: the sizes are written within their array exactly when the counts add up to at most 256; then the tables are built exactly when the counts satisfy the Kraft inequality, and represent the canonical code of T.81 Annex C |
| JpegTables.JHuffman.AssignCodes | p3/exp5/aes/ta/sod_img_reader.h:1939-1954 | code, maxcode and delta for every length; the test fails only on over-subscribed counts |
| JpegTables.JHuffman.FillFast | p3/exp5/aes/ta/sod_img_reader.h:1956-1968 | each 9-bit window holds the number of the symbol whose code word begins it, or the marker |
| JpegTables.SizesCounted | p3/exp5/aes/ta/sod_img_reader.h:1932-1936 | there are as many code lengths of each value as the counts say |
| JpegTables.SizeListSorted | p3/exp5/aes/ta/sod_img_reader.h:1932-1936 | the size list is sorted, so symbols are their own slots |
| JpegReader.JpegBits.GrowBuffer | p3/exp5/aes/ta/sod_img_reader.h:1997-2013 | topping up skips stuffed and fill bytes, stops at a marker and keeps the position in the entropy-coded stream |
| JpegReader.JpegBits.HuffDecode | p3/exp5/aes/ta/sod_img_reader.h:2019-2066 | fast table and maxcode path agree with bit-at-a-time canonical decoding, and only a marker can make a code word unavailable; but where symbol 255 comes next with a code of at most nine bits the answer is -1, or ten bits are taken and the value of another symbol returned |
| JpegReader.JpegBits.HuffDecodeSlow | p3/exp5/aes/ta/sod_img_reader.h:2038-2066 | the same for the scan over maxcode, which is entered for code words longer than nine bits and for the clashing symbol |
| JpegReader.JpegBits.ExtendReceive | p3/exp5/aes/ta/sod_img_reader.h:2073-2086 | the rotate-and-mask form returns the signed coefficient of figure F.12 of T.81 and consumes its bits |
| JpegReader.BuildFastAc | p3/exp5/aes/ta/sod_img_reader.h:1972-1995 | every entry of the combined table is the packed coefficient for its window or zero, and fits 16 bits |
| JpegReader.FastAcAgrees | p3/exp5/aes/ta/sod_img_reader.h:2150-2176 | a nonzero entry gives the run, value and length that decoding a symbol and receiving its coefficient give, and it is nonzero exactly when both fit and the symbol does not clash with the marker |
| JpegReader.ClashReads | p3/exp5/aes/ta/sod_img_reader.h:2038-2066 | on a clashing symbol the scan stops at ten bits at once, and which number they are taken for |
| JpegReader.MisreadIsWrong | p3/exp5/aes/ta/sod_img_reader.h:2060-2065 | that number is the symbol's own, and the assertion on its code word holds, only if the bits after the code word happen to be ones |
| JpegTables.ClashLengths | p3/exp5/aes/ta/sod_img_reader.h:1955-1968 | a clash needs 256 symbols of at most nine bits each, the last of eight or nine |
| JpegClash.StuffRoundTrip | p3/exp5/aes/ta/sod_img_reader.h:1997-2013 | the decoder takes byte stuffing out of any data it was put into |
| JpegClash.StuffEnds | p3/exp5/aes/ta/sod_img_reader.h:1997-2013 | and ends it at a marker, with fill bytes before it or not |
| JpegClash.AccelerableExactly | p3/exp5/aes/ta/sod_img_reader.h:2019-2066 | the codes that no entropy-coded data makes the decoder misread are exactly the accelerable ones |
| JpegClash.ClashingTable | p3/exp5/aes/ta/sod_img_reader.h:3052-3071 | counts of one 8-bit and 255 9-bit codes, which the table parser accepts, give a code that is not |
| JpegClash.OverrunTable | p3/exp5/aes/ta/sod_img_reader.h:3057-3068 | 200 code words of 15 bits and 100 of 16, which the table parser passes on, satisfy the Kraft inequality and are more than the array of sizes holds |
| JpegBlock.DezigzagInverts | p3/exp5/aes/ta/sod_img_reader.h:2112-2125 | the table of places is the inverse of the zigzag order of figure 5 of T.81 |
| JpegBlock.DezigzagDistinct | p3/exp5/aes/ta/sod_img_reader.h:2112-2125 | no two of the 64 coefficients go to one place |
| JpegBlock.ZigzagRule | p3/exp5/aes/ta/sod_img_reader.h:2112-2125 | the order runs up and down the diagonals from the first place to the last |
| JpegBlock.AcEntry | p3/exp5/aes/ta/sod_img_reader.h:2149-2161 | an entry of the combined table is a whole step of the standard's AC procedure: run, coefficient and bits taken |
| JpegBlock.AcStep | p3/exp5/aes/ta/sod_img_reader.h:2149-2178 | a step takes what the standard's procedure takes, through the combined table or symbol by symbol, unless that reaches past the end of the data |
| JpegBlock.DecodeAcs | p3/exp5/aes/ta/sod_img_reader.h:2145-2179 | all AC coefficients of a block, dequantised into their places, with its end where the standard has it |
| JpegBlock.DecodeBlock | p3/exp5/aes/ta/sod_img_reader.h:2128-2180 | a block that ends within the data is decoded to what section F.2.2 of T.81 gives bit by bit, prediction and position after it included, and fails exactly where a code word is missing |
| JpegCoding.MagnitudeExtends | p3/exp5/aes/ta/sod_img_reader.h:2073-2086 | receiving and extending inverts category and bits of section F.1.2.1 for every number |
| JpegCoding.AcsRoundTrip | p3/exp5/aes/ta/sod_img_reader.h:2145-2179 | any AC coefficients, sent as runs in zigzag order with symbols for sixteen zeros and the end of the block, come back |
| JpegCoding.BlockRoundTrip | p3/exp5/aes/ta/sod_img_reader.h:2128-2180 | any quantised coefficients with any prediction, encoded by sections F.1.2.1 and F.1.2.2 of T.81, come back: each times its quantiser at its place, the DC coefficient as the next prediction, and the position after the last bit |
| JpegCoding.ScanRoundTrip | p3/exp5/aes/ta/sod_img_reader.h:2128-2180 | so do all blocks of a scan of one component |
| JpegCoding.ScanDataRoundTrip | p3/exp5/aes/ta/sod_img_reader.h:2128-2180 | from the stuffed bytes of the scan on |
| JpegCoding.DcsAreSums | p3/exp5/aes/ta/sod_img_reader.h:2138-2143 | in any scan the DC coefficients are the running sums of the differences |
| GifLzw.WidthFollowsTable | p3/exp5/aes/ta/sod_img_reader.h:6604-6607 | for code sizes from 2 the code width after each code is the least that names the next entry, up to 12 |
| GifLzw.CodeReader.Refill | p3/exp5/aes/ta/sod_img_reader.h:6556-6565 | a byte is taken across block boundaries until the empty block |
| GifLzw.CodeReader.ReadCode | p3/exp5/aes/ta/sod_img_reader.h:6566-6569 | a code is the next bits of the unblocked data, least significant first |
| GifCoding.TableRoundTrip | p3/exp5/aes/ta/sod_img_reader.h:6584-6607 | codes an encoder takes from its table, whatever strings it chooses, are decoded as what they stand for, the code of the entry just being made included |
| GifCoding.ChunksRoundTrip | p3/exp5/aes/ta/sod_img_reader.h:6570-6613 | so is everything between clear codes, up to the end code, with the widths of the codes |
| GifCoding.UnblockRoundTrip | p3/exp5/aes/ta/sod_img_reader.h:6556-6565 | whatever blocks the data is cut into, it is put together again |
| GifCoding.RasterRoundTrip | p3/exp5/aes/ta/sod_img_reader.h:6528-6616 | the raster of any such encoder is read as its pixels |
| GifCoding.EveryImage | p3/exp5/aes/ta/sod_img_reader.h:6528-6616 | and any pixels have such an encoding, by longest matches |
| GifRaster.LearnStands | p3/exp5/aes/ta/sod_img_reader.h:6589-6598 | the new linked entry stands for the last string followed by the first byte of this one, the entry being defined included |
| GifRaster.Gif.AddEntry | p3/exp5/aes/ta/sod_img_reader.h:6589-6598 | the table goes on standing for the string dictionary, prefixes pointing backwards |
| GifRaster.Gif.OutCode | p3/exp5/aes/ta/sod_img_reader.h:6491-6526 | the recursion ends and draws the code's string in order |
| GifRaster.Gif.Plot | p3/exp5/aes/ta/sod_img_reader.h:6501-6525 | one colour index is drawn at the cursor, transparent ones skipped, and the cursor moves to the next pixel in drawing order |
| GifRaster.Gif.NextRow | p3/exp5/aes/ta/sod_img_reader.h:6516-6525 | the step and parse arithmetic follows the drawing order of rows, interlaced or not |
| GifRaster.Gif.DataCode | p3/exp5/aes/ta/sod_img_reader.h:6584-6602 | a data code defines an entry, draws its string and fails exactly where the format has no meaning for it |
| GifRaster.Gif.ProcessRaster | p3/exp5/aes/ta/sod_img_reader.h:6528-6616 | the whole raster is drawn as the string dictionary says, up to the first code not allowed |
| GifRaster.EachRowOnce | p3/exp5/aes/ta/sod_img_reader.h:6516-6525 | the interlaced drawing order is a permutation of the rows |
| GifRaster.OrderIs | p3/exp5/aes/ta/sod_img_reader.h:6719-6726 | plain images are drawn from top to bottom; interlaced ones by the four passes, and within a pass downwards |
| GifRaster.OffsetIs | p3/exp5/aes/ta/sod_img_reader.h:6501-6510 | a pixel is on its own line and in its own column of the canvas |
| GifRaster.DrawsInOrder | p3/exp5/aes/ta/sod_img_reader.h:6501-6525 | the k-th colour index lands at column k mod w of row k div w of the order, leaving the old pixel if it is transparent; what does not fit is dropped, and every other pixel and touched mark of the canvas stays as it was |
| GifRaster.DrawsImage | p3/exp5/aes/ta/sod_img_reader.h:6501-6525 | a raster is drawn into the image's rectangle in the order of rows the image calls for, each pixel up to its last in its own place, nothing outside the rectangle changes, and a full one leaves no place in it out |
| PngFilters.PaethNearest | p3/exp5/aes/ta/sod_img_reader.h:4528-4537 | the predictor is the neighbour nearest to a + b - c, ties going to left, then above |
| PngFilters.PaethAtEdges | p3/exp5/aes/ta/sod_img_reader.h:4528-4537 | at the edges of an image it is the one neighbour there is |
| PngFilters.FiltersMean | p3/exp5/aes/ta/sod_img_reader.h:4630-4635 | which bytes the first four filters predict exactly: zero, left, above, and the mean of the two rounded down |
| PngFilters.PaethMeans | p3/exp5/aes/ta/sod_img_reader.h:4636-4636 | and the fifth: the nearest of three, by its distances |
| PngFilters.RowRoundTrip | p3/exp5/aes/ta/sod_img_reader.h:4630-4636 | reconstruction undoes each of the five filters on every row |
| PngFilters.ImageRoundTrip | p3/exp5/aes/ta/sod_img_reader.h:4568-4667 | whatever filters an encoder chooses, the decoder's rows are the image's |
| PngImage.FirstByte | p3/exp5/aes/ta/sod_img_reader.h:4588-4598 | the first pixel's formulas, those of the first row included, add the standard's prediction with zero neighbours |
| PngImage.NextByte | p3/exp5/aes/ta/sod_img_reader.h:4628-4636 | the later pixels' formulas add the standard's prediction; the first-row forms equal the ordinary ones over a zero row |
| PngImage.PlainRow | p3/exp5/aes/ta/sod_img_reader.h:4587-4640 | a row is reconstructed in the output buffer, and nothing outside it is touched |
| PngImage.AlphaRow | p3/exp5/aes/ta/sod_img_reader.h:4587-4656 | the path that adds alpha yields the same channels with 255 after each pixel, but for the second byte of a 16-bit alpha |
| PngImage.PatchRow | p3/exp5/aes/ta/sod_img_reader.h:4658-4665 | the second pass sets just that byte of each pixel |
| PngPixels.SpreadAt | p3/exp5/aes/ta/sod_img_reader.h:4602-4656 | each pixel keeps its bytes and gets 255 for alpha |
| PngPixels.UnpackAt | p3/exp5/aes/ta/sod_img_reader.h:4686-4722 | sample q of a packed row is the one at its place in its byte, first bits first |
| PngPixels.SamplesArePacked | p3/exp5/aes/ta/sod_img_reader.h:4686-4722 | no bit of a byte is lost in its samples |
| PngPixels.WordsKept | p3/exp5/aes/ta/sod_img_reader.h:4748-4756 | a 16-bit sample keeps its value when its bytes are put in the machine's order |
| PngExpand.StaysAhead | p3/exp5/aes/ta/sod_img_reader.h:4673-4722 | the byte to be read is never behind the places already written |
| PngExpand.ExpandRow | p3/exp5/aes/ta/sod_img_reader.h:4673-4722 | for every width unpacking in place gives what unpacking from a copy would |
| PngExpand.InsertAlpha | p3/exp5/aes/ta/sod_img_reader.h:4723-4732 | inserting alpha backwards keeps every grey or index sample |
| PngExpand.InsertAlphaRgb | p3/exp5/aes/ta/sod_img_reader.h:4733-4741 | and all three samples of every colour pixel |
| PngRaw.ScaleFills | p3/exp5/aes/ta/sod_img_reader.h:4539-4678 | grey samples are scaled to the full range of a byte |
| PngRaw.SmallRowsFit | p3/exp5/aes/ta/sod_img_reader.h:4577-4577 | the assertion that a row of small samples takes no more bytes than pixels holds exactly when a pixel takes no more than eight bits |
| PngRaw.AssertionHolds | p3/exp5/aes/ta/sod_img_reader.h:4987-5005 | of all depths and colour types the header's parser accepts, that assertion fails on 4-bit colour with or without alpha, at any width, and on nothing else |
| PngRaw.UnfilterAll | p3/exp5/aes/ta/sod_img_reader.h:4568-4667 | un-filtering fails exactly at a filter that is none of the five |
| PngRaw.CreateRaw | p3/exp5/aes/ta/sod_img_reader.h:4542-4759 | succeeds exactly on data that is long enough with good filters, and then every output row is the reconstructed one, unpacked, with alpha, and in words of the machine if its samples have 16 bits |
| PngRaw.DecodesEncoded | p3/exp5/aes/ta/sod_img_reader.h:4542-4759 | an image encoded with any choice of filters is accepted and comes back |
| PngInterlace.PassIsAdam7 | p3/exp5/aes/ta/sod_img_reader.h:4773-4776 | the pass tables are the 8 by 8 pattern of the PNG specification, section 8.2 |
| PngInterlace.PassPlace | p3/exp5/aes/ta/sod_img_reader.h:4779-4790 | the computed pass sizes are exactly the counts of columns and rows each pass owns |
| PngInterlace.PassCovers | p3/exp5/aes/ta/sod_img_reader.h:4787-4793 | every pixel is at one column and row of the one pass it belongs to |
| PngInterlace.CopyPass | p3/exp5/aes/ta/sod_img_reader.h:4787-4793 | copying a pass puts each of its pixels in place and leaves all others |
| PngInterlace.CreateImage | p3/exp5/aes/ta/sod_img_reader.h:4761-4803 | the seven passes together give every pixel of the final image, and decoding fails exactly when a pass that has pixels does |
| PageTree.EntryPointsTo | p1/p1_6/src/mm.c:43-61 | an entry is never zero and leads back to the frame it was made for |
| PageTree.IndexOfAddress | p1/p1_6/src/mm.c:41-51 | shifting and masking an address gives the index of its page number at each level |
| PageTree.HardwareIndex | p1/p1_6/src/mm.c:41-51 | the indices at the four levels are the nine-bit groups of the address above its offset in the page |
| PageTree.DescriptorBits | p1/p1_6/src/mm.c:43-61 | entries are valid descriptors; those of pages allow user programs to read and write, and are marked as accessed |
| PageTree.TranslateFinds | p1/p1_6/src/mm.c:105-128 | walking a task's tables finds the frame that is its memory at that page, and nothing where none is mapped |
| PageTree.NoSharing | p1/p1_6/src/mm.c:105-128 | no two tasks, and no two pages of one task, translate to one frame, and never to a table |
| PageTree.TablesAreTrees | p1/p1_6/src/mm.c:47-62 | an entry in use leads to a table that no other entry leads to |
| PageUpdates.AttachLinked | p1/p1_6/src/mm.c:52-57 | hanging an empty table keeps the trees in order and every translation of every task |
| PageUpdates.MapLinked | p1/p1_6/src/mm.c:40-45 | entering a page maps just that page and leaves every other translation |
| PageTables.Memory.GetFreePage | p1/p1_6/src/mm.c:23-34 | a free frame, zeroed and marked, and 0 exactly when none is left |
| PageTables.Memory.FreePage | p1/p1_6/src/mm.c:36-38 | a kernel page is given back; no translation changes |
| PageTables.Memory.MapTable | p1/p1_6/src/mm.c:47-62 | follows the entry or hangs a fresh table, reporting exactly which |
| PageTables.Memory.MapTableEntry | p1/p1_6/src/mm.c:40-45 | the one page is mapped, in memory as in the translation |
| AddressSpaces.BuildPath | p1/p1_6/src/mm.c:105-124 | exactly the missing tables are allocated and recorded, and no translation changes |
| AddressSpaces.MapPage | p1/p1_6/src/mm.c:105-128 | afterwards va translates to the page and every other page of every task as before |
| AddressSpaces.AllocateUserPage | p1/p1_6/src/mm.c:14-21 | a fresh zeroed page is mapped, or nothing changes when none is left |
| AddressSpaces.CopyPage | p1/p1_6/src/mm.c:137-137 | one page's contents are copied; no translation changes |
| AddressSpaces.CopyVirtMemory | p1/p1_6/src/mm.c:130-140 | the child maps a copy of each page of the parent in a frame that was free, nothing else changes, and it returns 0 exactly when frames suffice for the pages and their tables, which are the frames it then has on record |
| AddressSpaces.TableCount | p1/p1_6/src/mm.c:108-124 | kernel_pages_count is the number of tables the task's pages need |
| KernelTasks.Kernel.MemAbort | p1/p1_6/src/mm.c:144-160 | a translation fault always finds a page and maps it, zeroed, where the access was; from the second fault on it is reported as a failure all the same |
| KernelTasks.FaultStatus | p1/p1_6/src/mm.c:144-147 | the status test picks the translation faults of the four levels |
| KernelTasks.FramesLeft | p1/p1_6/src/mm.c:23-34 | every frame is free, in some task's records or a task's structure, so that with 64 tasks and 16 places in each list memory cannot run out |
| KernelTasks.Isolation | p1/p1_6/src/mm.c:105-140 | in every state kept by boot, fork, fault and program load a task sees exactly its listed pages and shares no frame |
| KernelTasks.Kernel.CopyProcess | p1/p1_6/src/fork.c:7-41 | every fork in every run gives the next number, and the child has copies of all of the parent's pages: neither failure branch is ever taken |
| KernelTasks.Kernel.MoveToUserMode | p1/p1_6/src/fork.c:44-57 | a fresh page at address 0, which is always found, holds the code followed by zeros |
| SchedulerModel.ScanBounds | p1/p1-5-2/src/sched.c:30-38 | the scan returns the first running task with the largest counter, or task 0 |
| Scheduler.Kernel.Best | p1/p1-5-2/src/sched.c:30-38 | the loop over the table is that scan |
| Scheduler.Kernel.RechargeAll | p1/p1-5-2/src/sched.c:42-47 | every counter is halved and topped up by the priority |
| Scheduler.SecondScan | p1/p1-5-2/src/sched.c:29-48 | after a recharge some running task has a positive counter |
| Scheduler.Kernel.DoSchedule | p1/p1-5-2/src/sched.c:24-51 | scans at most twice, switches to the picked task and leaves it preemptible |
| Scheduler.Kernel.Schedule | p1/p1-5-2/src/sched.c:53-57 | giving up the processor uses up the counter |
| Scheduler.Kernel.TimerTick | p1/p1-5-2/src/sched.c:73-83 | the tick counts down and reschedules exactly when the counter is used up and preemption enabled |
| Scheduler.Kernel.ExitProcess | p1/p1-5-2/src/sched.c:85-98 | the current task becomes a zombie and another is picked |
| Scheduler.Kernel.SleepState | p1/p1-5-2/src/sched.c:117-143 | the task waits with its seconds entered and another is picked; a task already waiting is sent back with preemption left disabled |
| SchedulerRuns.PickSound | p1/p1-5-2/src/sched.c:24-51 | the picked task runs, its counter is positive and the largest, and a recharge only comes when all counters are used up |
| SchedulerRuns.PickOnlyRunning | p1/p1-5-2/src/sched.c:24-51 | a task that does not run is picked exactly when no task runs, and then it is task 0 |
| SchedulerRuns.StepKeeps | p1/p1-5-2/src/sched.c:24-143 | every tick, yield, fork, exit and sleep keeps: only the current task preemptible, it runs, counters below twice the priority, and waiting tied to the wait array; and only a failed fork leaves preempt_count further from normal |
| SchedulerRuns.RunKeeps | p1/p1-5-2/src/sched.c:24-143 | so does every state of every run |
| SchedulerLives.StatesChange | p1/p1-5-2/src/sched.c:24-143 | an event changes no state but that of the current task by its own exit or sleep and of tasks woken by a tick, and no priority |
| SchedulerLives.ExitsForGood | p1/p1-5-2/src/sched.c:85-98 | in every run a task that exits is a zombie from then on and never runs again |
| SchedulerLives.PriorityStays | p1/p1-5-2/src/sched.c:24-143 | in every run a task keeps the priority it had from the start |
| SchedulerLives.AllPrioritiesOne | p1/p1-5-2/src/sched.c:24-143 | and from boot on that is 1 for every task |
| SchedulerLives.TurnLasts | p1/p1-5-2/src/sched.c:73-83 | a task runs on for as many ticks as its counter, less one |
| SchedulerLives.TurnEnds | p1/p1-5-2/src/sched.c:73-83 | and with the last of them another task gets the processor if a running one has anything left |
| SchedulerLives.RechargesFill | p1/p1-5-2/src/sched.c:42-47 | a task that does not run gets up to one less than twice its priority, what is missing being halved with each recharge |
| SchedulerFairness.Progress | p1/p1-5-2/src/sched.c:24-83 | every tick or yield brings each running task nearer to its turn, measured by the counters left in the epoch |
| SchedulerFairness.NoStarvation | p1/p1-5-2/src/sched.c:24-83 | with a fixed set of running tasks, none with a failed fork behind it, each becomes current within three times the sum of their priorities in ticks |
| SchedulerRuns.BootInv | p1/p1-5-2/src/sched.c:8-11 | the kernel boots into that invariant |
| Scheduler.Kernel.Booted | p1/p1-5-2/src/sched.c:8-11 | the table as initialised is the boot state |
| Scheduler.Kernel.UpdateWait | p1/p1-5-2/src/timer.c:10-29 | every tenth tick takes a second off and wakes just the tasks whose last second it was |
| Scheduler.Kernel.HandleTimerIrq | p1/p1-5-2/src/timer.c:52-57 | the tick event as a whole |
| SchedulerSleep.StaysAsleep | p1/p1-5-2/src/timer.c:10-29 | in every run a waiting task's entry is its seconds less the full seconds passed, until they are over |
| SchedulerSleep.SleepsExactly | p1/p1-5-2/src/timer.c:10-29 | sleep(n) ends with tick 10 n - frq exactly, between 10 n - 9 and 10 n; with n below 1 it never ends |
| Scheduler.Kernel.CopyProcess | p1/p1-5-2/src/fork.c:8-44 | a new task with the parent's priority in the next slot, or -1 with preemption left disabled |
| SchedulerLives.ForkBegins | p1/p1-5-2/src/fork.c:26-43 | in every run a fork that finds a page adds one task and changes no other: it runs, with preemption disabled, a full counter and its parent's priority for good |
| SchedulerRuns.FailedForksAddUp | p1/p1-5-2/src/fork.c:13-16 | in every run each task's preempt_count is above normal by what it was at the start and the task's failed forks since |
| SchedulerRuns.FailedForkNeverPreempted | p1/p1-5-2/src/fork.c:13-16 | so in every run a tick never takes the processor from a task that has ever had a fork fail |
| SchedulerRuns.KeepsProcessor | p1/p1-5-2/src/fork.c:13-16 | which keeps it until it gives it up, whatever the other tasks' counters are |
| WorkStealing.StepKeeps | p2/exp2/list.c:167-193 | whatever thread moves next, its step keeps parts claimed once, lists linked as far as the insertion has come, and contents and sizes right |
| WorkStealing.OthersKeep | p2/exp2/list.c:170-187 | a step only touches nodes its own thread owns, so no other thread is disturbed |
| WorkStealing.InsideKeeps | p2/exp2/list.c:183-183 | in the midst of an insertion the list is a ring but for the links still to be written |
| WorkStealing.RunKeeps | p2/exp2/list.c:167-193 | every world reached in any order of steps satisfies the invariant |
| WorkStealing.AllShared | p2/exp2/list.c:167-193 | after all join, each part has been claimed once, each element of the parts is on one list once, all lists are rings and the counted lengths sum to all elements |
| WorkStealing.TotalClaims | p2/exp2/list.c:314-326 | the total of the lengths is what the claimed parts hold |
| WorkStealing.EveryoneFinishes | p2/exp2/list.c:167-193 | however the others move, a thread joins within a bounded number of its own steps |
| WorkStealing.WorkBound | p2/exp2/list.c:167-193 | that bound from the start: one, and for each part two and five for each element |
| WorkStealing.StartInv | p2/exp2/common.c:80-89 | empty lists and free locks satisfy the invariant |
| SortedList.Insert | p2/exp2/SortedList.c:7-31 | a new element is put in front of all others of the ring; one that is first already is cut off in a ring of its own; one further back leaves a link that its neighbour does not return; and the list itself is emptied |
| SortedList.Delete | p2/exp2/SortedList.c:34-44 | an element of a ring is taken out of it; 1 and no change when a neighbour does not point back |
| SortedList.Lookup | p2/exp2/SortedList.c:46-58 | the first element with the key, or null exactly when there is none |
| SortedList.Length | p2/exp2/SortedList.c:60-74 | what was passed is a chain of sound elements from the first one on; the count is their number if it ends at the head, and -1 comes exactly at an element before the head that a neighbour does not point back to; a count is that of a ring exactly if the first element points back to the head, which is not looked at |
| SortedList.CountsNoRing | p2/exp2/SortedList.c:60-74 | a list whose one element points elsewhere is no ring, and is counted as 1 |
| SortedList.InsertAgain | p2/exp2/SortedList.c:27-30 | inserting the first element a second time leaves a list on which the walk never returns |
| SortedList.ReturnsExactly | p2/exp2/SortedList.c:60-74 | the walk returns if and only if no ring through the first element misses the head |
| SortedList.GoesRound | p2/exp2/SortedList.c:60-74 | on such a ring it goes round for ever, every link looked at being right |
| SortedList.PointsBack | p2/exp2/SortedList.c:60-74 | it returns whenever the first element points back to the head |
| StrTol.StrToL | p3/exp5/aes/ta/ctype.h:104-185 | for every string and legal base the signed value of the digits clamped to a long, and the end just past all the digits even after overflow |
| StrTol.Accumulate | p3/exp5/aes/ta/ctype.h:157-176 | the accumulator never passes the limit, and overflow is noticed exactly |
| StrTol.CutoffExact | p3/exp5/aes/ta/ctype.h:157-170 | the test against cutoff and cutlim holds exactly when the next digit would pass the limit |
| StrTol.Locate | p3/exp5/aes/ta/ctype.h:118-138 | white space, one sign, a prefix of 0x where the base allows it even when no digit follows, and the base |
| StrTol.ReadsBack | p3/exp5/aes/ta/ctype.h:104-185 | a number written in any way, with white space, a sign, a prefix and letters of either case, in the range of a long or beyond it, is read as its clamped value and to its last digit |
| StrTol.CaseFree | p3/exp5/aes/ta/ctype.h:162-164 | the case of a letter does not matter |
| StrTol.RoundTrip | p3/exp5/aes/ta/ctype.h:104-185 | every long printed in any base is read back, and just its characters are |
| StrTol.EndStandard | p3/exp5/aes/ta/ctype.h:131-138 | the end is that of the C standard, where 0x is a prefix only before a digit, unless there is such a prefix without one |
| StrTol.BarePrefix | p3/exp5/aes/ta/ctype.h:131-138 | then the standard reads the 0 and ends after it, and the code reads nothing |
| StrTol.BarePrefixEnds | p3/exp5/aes/ta/ctype.h:131-138 | as for "0x" in base 16: the end is 0 instead of 1 |
| StrTol.NumberStandard | p3/exp5/aes/ta/ctype.h:104-185 | the number is always the standard's |

## Left out

- Length symbols 286 and 287 and distance symbols 30 and 31: RFC 1951 reserves them; where a stream uses one the model promises nothing (`Reserved`).
- Machine widths: sizes, offsets and image dimensions are unbounded integers; the C code relies on checks elsewhere to keep them below INT_MAX. Widths that matter to the algorithms (16-bit codes, the 32-bit bit buffers, 8-bit samples, 16-bit packed entries, the long of `strtol`) are modelled.
- ZBuf.DecodeMalloc: the allocator is a limit below 2^30 on the size of a block; failures for other reasons are not modelled.
- JpegBlock.DecodeBlock: categories of DC differences are at most 15, and the two codes are accelerable, since others are misread (`AccelerableExactly`); where the block reaches past the end of the data only its safety is stated. Progressive scans, the transform and colours are not modelled.
- JpegReader.JpegBits.HuffDecode: after -1 nothing is said of the buffer; and the source's assertion on the code word read, which fails on most misread symbols (`MisreadIsWrong`), is taken not to stop the program.
- JpegTables.JHuffman.Build: where the source would write past the array of sizes the model stops.
- GifRaster.Gif.ProcessRaster: colours are pixels rather than groups of four bytes, and the position after the last block, which the caller uses for the next frame, is not stated.
- GifCoding.RasterRoundTrip: code sizes from 2 to 12; the format has 2 to 8, and the source takes 0 and 1 as well.
- GifCoding.EveryImage: code sizes from 2 to 8, as in the format.
- PngRaw.UnfilterAll: not for 4-bit samples of colour types 2 and 6, on which the source's assertion fails (`AssertionHolds`).
- PngRaw.CreateRaw: likewise; and the words of 16-bit samples are stored with the low byte first, as on the machines the repository is for.
- PngRaw.DecodesEncoded: likewise.
- PngInterlace.CreateImage: likewise.
- PNG chunks, palettes, transparency keys and the iPhone format: per-byte work on top of what is modelled.
- PageTables.Memory.MapTable: asks for a frame if it has to hang a table, since the source does not check and goes on in frame 0; every call from the kernel's entry points has one, by `FramesLeft`.
- AddressSpaces.BuildPath: asks for enough frames for the tables it hangs, for the same reason; its callers have them by `FramesLeft`.
- AddressSpaces.MapPage: likewise.
- AddressSpaces.AllocateUserPage: likewise, once it has found the page itself.
- AddressSpaces.CopyVirtMemory: on its own memory may run out between two pages, but not while a table is being hung; called by a fork it does not run out at all.
- kernel_pages and user_pages have 16 places: callers must have room, since the source does not check.
- KernelTasks.Kernel.MemAbort: asks for such places in the task's lists.
- KernelTasks.Kernel.MoveToUserMode: the same, and code of at most one page, since the source copies any length into the one page it has.
- KernelTasks.Kernel.CopyProcess: asks for a free slot of the 64; registers and the contents of the task structure's page are not modelled, nor is preempt_count, which belongs to the scheduler's part.
- Writing to user memory other than by copying: a task's own stores do not change any table.
- Timer ticks nest in the source because interrupts are enabled around `_schedule`, and they can come while preemption is disabled; the model's ticks come between the entry points.
- Scheduler.Kernel.CopyProcess: needs a free slot of the 64 when a page was found, since the source does not check.
- `change_to_state`: nothing calls it; a task it sends to wait would not be woken.
- exit_process also frees the task's stack page, which is not part of the scheduler's state.
- The wait array's entries are unbounded integers, so a negative sleep never wraps around.
- Memory ordering and the C memory model: each write of `SortedList_insert` is one step, and steps interleave one at a time; the lists need no more because a thread's nodes are its own.
- Elements are identified by their index; keys play no part in insertion. The variants without USE_LB are not modelled.
- SortedList.Insert: its list is a ring, as a list is that new elements have been inserted in and elements deleted from; the element is any one.
- SortedList.Length: asks that no ring through the first element misses the head, on which it would not return.
- `errno` in `strtol` is a local variable of the source and has no effect.
- UART, GPIO, exception vectors, register contexts, `map_timer_reg`, the OP-TEE host programs, floating-point and SIMD image code, hashing, plotting and measuring.
