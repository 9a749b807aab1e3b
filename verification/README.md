# Verified models of libsparse and abootimg

This project models two programs of the repository in Dafny and proves what their code does.

**libsparse and its tools** (`bin/src/simg2img`). A disk image is a sorted linked list of backed blocks: memory, a
slice of a file or of a descriptor, or a 32-bit fill. The library builds the list, writes it in the Android sparse
format or as a raw file, reads the sparse format back, sparses raw files, and cuts an image into files under a byte
limit. Every layer has one meaning to keep, the bytes that a list denotes with holes read as zero: `Image.Lookup` at one
position, `Image.Expand` for a whole image.

**abootimg** (`bin/src/abootimg`). A boot image is a header and three page-aligned parts. An update rewrites parts in
place: later parts move, and the padding behind a part can write a whole page into the next one.

## Structure

| module | contents |
|---|---|
| `Defs`, `Crc32` | machine arithmetic, byte strings, little-endian fields; the CRC table and its bitwise definition |
| `Image`, `BackedBlock` | blocks and what they denote; merging, queueing, splitting and moving as functions on sequences |
| `BackedBlockList` | the linked list on the heap, its cached insertion point, and the methods that change it |
| `OutputFile`, `SparseFile`, `Encode` | the writers over a seekable file or a counting callback, and what they leave behind |
| `SparseRead`, `SparseReader`, `ReaderCrc`, `Wrapping` | what reading a sparse file computes, the methods that do it, the running CRC, and files that wrap the block counter |
| `RoundTrip`, `Partial` | import of what was written, and the exact limits of that |
| `Wire` | the format itself: files given byte for byte, and exactly which headers and chunks are accepted |
| `Resparse`, `ResparseSize`, `ResparseTwice`, `ResparseLimits`, `ResparseFile` | cutting under a byte limit: conservation, sizes, the two passes, where the guarantees end, and the methods on the lists |
| `Sparsify`, `Reassemble`, `Tools`, `Append` | raw files, pieces written over one file in any order, and the command-line tools |
| `BootImage`, `BootConfig`, `Abootimg` | boot images, their textual configuration, and the commands from end to end |

The objects that the source updates in place are classes: list nodes and lists, files, writers, sparse files, the boot
image under work. Their methods have the loops and the steps of the source and are proved equal to a specification
function of the old state; the properties are lemmas about those functions. Descriptors and named files are immutable
byte strings in a `Store`; a file being written is an object with contents and an offset.

## Assumptions

- The block size is positive, at most 2^31 - 1 and a multiple of four, as `bin/src/simg2img/img2simg.c:64` asks of its
  users. `Encode.InImage` collects what is asked of an image: non-empty extents that do not overlap and lie inside it,
  and one block more than the image still below 2^32 bytes. `Encode.WellFormed` also asks for fills of whole blocks.
  The writers that count through a callback also need extents of at most 2^31 - 1 bytes, because the callback takes an
  `int`.
- Resparse is called with a budget, the limit less 56 bytes, of at least eight blocks less eight bytes;
  `ResparseLimits` says when a pass ends below that, and exactly when a piece gets an empty block.
- Boot images have a page that holds the header, and sizes whose sums and products stay below 2^32 (`BootImage.Sane`).
- The host is little-endian, as the source is when it writes its headers.
- An `unsigned long`, which is what `strtoul` returns, has 64 bits.

## Where the code and its documentation disagree

The model follows the code.

- `bin/src/simg2img/include/sparse/sparse.h:37-38` gives a size of up to 16 TB; the length of a block is 32 bits wide,
  and a merge is lossless exactly when the sum of the lengths fits (`BackedBlock.MergeLossless`);
  `BackedBlock.MergeLoses` is a pair of fills for which it does not.
- `bin/src/simg2img/include/sparse/sparse.h:85-86` promises zero padding for a fill that ends inside a block; that holds
  exactly when the pattern is zero there (`Partial.FillPadding`), for whole words only when the value is
  (`Partial.WordFillPadding`). `Partial.PaddingNotZero` is a fill that breaks it.
- `bin/src/simg2img/output_file.c:494-516` does not skip that padding in a raw file either, so everything behind such a
  fill is displaced (`Encode.RawOffsetsExactly`, with `Encode.FillDisplaces` as an example).
- `bin/src/simg2img/include/sparse/sparse.h:163-175` promises the size of the raw file; nothing is counted for the padding
  of a fill, so that holds exactly when no fill ends inside a block (`Encode.RawLength`).
- `bin/src/simg2img/sparse_format.h:28` calls the announced number the blocks of the output image. The reader compares it
  with a 32-bit counter that wraps, and accepts files with overlapping extents (`Wrapping.OverlapAccepted`) or extents
  outside the image (`Wrapping.OutsideAccepted`). `SparseRead.ImportIsSound` covers every file whose chunk sizes add up.
- `bin/src/simg2img/include/sparse/sparse.h:156-157` promises the CRC of the expanded data; the writer hashes no holes and
  one block of each fill. `Partial.HashedExactly` states exactly when what it hashes is the expanded data,
  `RoundTrip.ImportOfWritten` when the reader accepts the result, and `Partial.HoleCrcRefused` is an image for which it
  does not.
- `bin/src/simg2img/include/sparse/sparse.h:281-282` promises files smaller than the limit; with a CRC chunk they can be
  twelve bytes larger than it (`ResparseLimits.CrcExceedsLimit`). `ResparseSize.CrcBelowLimit` and
  `ResparseSize.CrcBelowLimitExactly` state exactly when they are smaller.
- `bin/src/simg2img/sparse.c:315-319` speaks of files at least 7/8 full; the test takes the next chunk header off the
  room first, so up to twelve bytes may be missing (`ResparseSize.PiecesNearlyFull`). They are missing exactly when
  `ResparseSize.NearlyFullExactly` says, and `ResparseLimits.NotNearlyFull` is such a piece.
- append2simg accepts raw files of any length (`bin/src/simg2img/sparse_read.c:476-506`), but appends correctly exactly
  to images of whole blocks (`Append.AppendExactly`).
- img2simg accepts any input in its usage text; an input that is not a number of whole blocks always ends in the failed
  assertion of `bin/src/simg2img/sparse.c:143` (`Tools.Img2Simg`).
- `bin/src/abootimg/abootimg.c:851` allocates the buffer for the second stage with the size of the kernel, so a larger
  second stage cannot be extracted (`Abootimg.ExtractsAfterUpdate`, with `BootImage.SecondStageRefused` as an example).
- `bin/src/abootimg/abootimg.c:696` truncates the descriptor while the end of the file may still be buffered in the
  stream; whole-page padding behind the last part can then make the file a page longer than asked for
  (`BootImage.UpdateExtracts`, with `BootImage.PageLonger` as an example).

## Model

| member | source | states |
|---|---|---|
| Defs.Align32Exact | bin/src/simg2img/sparse_defs.h:42-44 | `DIV_ROUND_UP` and `ALIGN`, evaluated in 32 bits, equal their unbounded values whenever one block more than the argument still fits in 32 bits |
| Defs.AlignBounds | bin/src/simg2img/sparse_defs.h:42-43 | rounding up gives the least multiple at or above its argument, and multiples are fixed points |
| Defs.AlignDownBounds | bin/src/simg2img/sparse_defs.h:44 | rounding down gives the greatest multiple at or below its argument |
| Defs.Get32Le32 | bin/src/simg2img/sparse_format.h:21-47 | a 32-bit field that is stored and loaded again loses exactly what exceeds 32 bits |
| Defs.Le32Get32 | bin/src/simg2img/sparse_format.h:21-47 | a field that is loaded and stored again writes the same four bytes |
| Crc32.TableIsBitwise | bin/src/simg2img/sparse_crc32.c:31-93 | each of the 256 table entries is eight shift/xor steps of polynomial 0xEDB88320 applied to its index |
| Crc32.Bits8Linear | bin/src/simg2img/sparse_crc32.c:31-39 | eight shift/xor steps are linear over xor |
| Crc32.TableStepIsBitwise | bin/src/simg2img/sparse_crc32.c:107-108 | the table step on any register and byte equals eight bit steps of the reference definition (clause 3.2.9 of IEEE 802.3, section 8 of RFC 1952) |
| Crc32.CrcConcat | bin/src/simg2img/sparse_crc32.c:101-110 | a CRC may be continued: hashing b from the CRC of a gives the CRC of a followed by b |
| Crc32.SparseCrc32 | bin/src/simg2img/sparse_crc32.c:101-110 | the table loop returns the bitwise CRC of the buffer, continued from the CRC passed in |
| Crc32.CheckValue | bin/src/simg2img/sparse_crc32.c:101-110 | the CRC of the nine digits 123456789 is 0xCBF43926 |
| Crc32.FourZeros | bin/src/simg2img/sparse_crc32.c:101-110 | the CRC of four zero bytes is 0x2144DF1C |
| Crc32.Residue | bin/src/simg2img/sparse_crc32.c:101-110 | any data followed by its own CRC, continued from any CRC, has the CRC 0x2144DF1C |
| Image.LookupHole | bin/src/simg2img/sparse.c:132-134 | a position reads as a hole exactly when no extent covers it |
| Image.LookupInsert | bin/src/simg2img/include/sparse/sparse.h:62-65 | inserting an unused extent anywhere in a list overlays exactly its bytes |
| Image.LookupCut | bin/src/simg2img/backed_block.c:375-395 | an extent cut at a block boundary, with its source moved on, denotes the same bytes |
| BackedBlock.MergeLossless | bin/src/simg2img/backed_block.c:234-237 | merging two neighbours keeps their bytes if and only if the 32-bit length does not wrap |
| BackedBlock.MergeLoses | bin/src/simg2img/backed_block.c:234-237 | two equal fills of 2^31 bytes are merged into an empty one, by example |
| BackedBlock.MergeableMeet | bin/src/simg2img/backed_block.c:206-210 | blocks that pass the adjacency test meet exactly at a block boundary, the first being whole blocks |
| BackedBlock.MergeableExactly | bin/src/simg2img/backed_block.c:190-242 | of two disjoint extents exactly those merge that meet in whole blocks and hold the same fill value, or whose slices of the same file or descriptor continue each other |
| BackedBlock.MergeAtKeepsImage | bin/src/simg2img/backed_block.c:190-242 | a merge anywhere in an image below 2^32 bytes changes no byte and no hole |
| BackedBlock.MergeAtKeepsOrder | bin/src/simg2img/backed_block.c:190-242 | a merge keeps the list sorted and its extents disjoint |
| BackedBlock.QueueKeepsOrder | bin/src/simg2img/backed_block.c:244-284 | queueing an unused extent keeps the list sorted and disjoint through both merges |
| BackedBlock.QueueKeepsFree | bin/src/simg2img/backed_block.c:244-284 | a region that was unused by the list and the new extent stays unused |
| BackedBlock.QueueOverlays | bin/src/simg2img/backed_block.c:244-284 | the list then denotes the old image with the new extent overlaid |
| BackedBlock.QueueAscending | bin/src/simg2img/backed_block.c:244-284 | whatever is added under an unused number, overlapping or not, block numbers stay in increasing order |
| BackedBlock.QueueAllDenotes | bin/src/simg2img/backed_block.c:244-284 | any sequence of disjoint adds, in any order, builds a sorted, disjoint list that denotes exactly those extents |
| BackedBlock.QueueInOrder | bin/src/simg2img/backed_block.c:259-281 | an extent queued behind all others is appended and merges with the last one at most |
| BackedBlock.QueueCoalesces | bin/src/simg2img/backed_block.c:244-284 | queueing leaves no two neighbours that could still merge, if and only if the new block is not linked in front of a head that continues it |
| BackedBlock.SplitExtents | bin/src/simg2img/backed_block.c:377-381 | the two halves of a split meet at the cut, end where the block ended, and the head is whole blocks |
| BackedBlock.SplitAtKeepsOrder | bin/src/simg2img/backed_block.c:360-398 | a split that leaves at least one block keeps the list sorted, disjoint and in range |
| BackedBlock.SplitAtKeepsImage | bin/src/simg2img/backed_block.c:360-398 | a split changes no byte of the image, for all four kinds of backing |
| BackedBlock.SpliceAppends | bin/src/simg2img/backed_block.c:175-186 | a run that starts at or after everything in the target is appended to it |
| BackedBlockList.List.MergeBb | bin/src/simg2img/backed_block.c:189-242 | merges in place exactly when the blocks are compatible and adjacent, and stops exactly when they are out of order or would be compared with a block size of zero; the list stays linked and acyclic and loses just that node |
| BackedBlockList.List.Absorb | bin/src/simg2img/backed_block.c:234-241 | the first node takes over length and link of the second, all other nodes keep theirs |
| BackedBlockList.List.InsertionPoint | bin/src/simg2img/backed_block.c:259-268 | starting from the cached node finds the same place as starting from the head |
| BackedBlockList.List.QueueBb | bin/src/simg2img/backed_block.c:244-284 | stops exactly when the block number is in use, or a neighbour of the same kind is compared with a block size of zero, even if extents overlap; otherwise the heap list becomes the queued list of the specification, and the cache is null or a live node of it |
| BackedBlockList.List.LinkAndMerge | bin/src/simg2img/backed_block.c:270-281 | linking, both merges and the update of the cache together give the queued list, or stop where `queue_bb` does |
| BackedBlockList.List.Prepend | bin/src/simg2img/backed_block.c:253-257 | a block before the head is linked in front, unmerged, and the cache stays live |
| BackedBlockList.List.Add | bin/src/simg2img/backed_block.c:287-358 | the four add functions queue one new node with the given source, or stop exactly where `queue_bb` does |
| BackedBlockList.List.Split | bin/src/simg2img/backed_block.c:360-398 | the node keeps the whole blocks that fit, a new node behind it takes the rest; nodes before it are untouched |
| BackedBlockList.PositionUnique | bin/src/simg2img/backed_block.c:268 | in an ascending list there is one place between smaller and larger block numbers |
| BackedBlockList.Unlink | bin/src/simg2img/backed_block.c:162-173 | a run of nodes leaves the list from its head or from its middle; the others stay linked in order |
| BackedBlockList.LinkRun | bin/src/simg2img/backed_block.c:175-186 | the run is linked into an empty list, or behind the first node whose successor lies beyond it, never before the head |
| BackedBlockList.ListMove | bin/src/simg2img/backed_block.c:144-187 | any run moves from one list to another: both stay well linked and share no node, and every block is in exactly one |
| OutputFile.OutputFile.constructor | bin/src/simg2img/output_file.c:541-602 | opening writes the header of the sparse format, with one chunk more when a CRC is asked for, and nothing for a raw file |
| OutputFile.OutputFile.SkipOver | bin/src/simg2img/output_file.c:277-293 | the callback's loop of at most INT_MAX bytes a step advances by the whole count; a file just seeks |
| OutputFile.OutputFile.WriteSkipChunk | bin/src/simg2img/output_file.c:344-368 | one don't-care chunk for a number of whole blocks, an error and no output otherwise |
| OutputFile.OutputFile.WriteSparseFill | bin/src/simg2img/output_file.c:370-402 | one fill chunk of the rounded-up length; the CRC takes in one block of the pattern whatever the length |
| OutputFile.OutputFile.HashFill | bin/src/simg2img/output_file.c:392-396 | hashing the word once for each word of a block gives the CRC of one block of the pattern |
| OutputFile.OutputFile.WriteSparseData | bin/src/simg2img/output_file.c:404-442 | one raw chunk of data and zero padding, with `int` lengths and 32-bit total size, and the CRC of both |
| OutputFile.OutputFile.WriteNormalData | bin/src/simg2img/output_file.c:477-492 | the data is written and the padding is skipped |
| OutputFile.OutputFile.WriteNormalFill | bin/src/simg2img/output_file.c:494-516 | the pattern is written a buffer at a time to exactly the length of the extent, with no skip behind it |
| OutputFile.OutputFile.WriteFd | bin/src/simg2img/output_file.c:694-743 | mapping from the 4096-byte boundary below the offset yields the slice of the file |
| OutputFile.OutputFile.WriteBlock | bin/src/simg2img/sparse.c:100-122 | every kind of backing is written as the specification of its chunk says |
| OutputFile.OutputFile.Close | bin/src/simg2img/output_file.c:444-468 | the CRC chunk, or the truncation of a raw file to the image length |
| OutputFile.PutTwice | bin/src/simg2img/output_file.c:150-170 | two writes in a row are one write of both, for a file with a gap before it and for the counter |
| SparseFile.SparseFile.CountAllChunks | bin/src/simg2img/sparse.c:79-98 | one chunk for each extent, each gap before one, and a hole at the end |
| SparseFile.SparseFile.WriteAllBlocks | bin/src/simg2img/sparse.c:124-149 | the loop over the nodes writes the blocks of the list in order and fails its assertion exactly when the last block ends beyond the image |
| SparseFile.SparseFile.Write | bin/src/simg2img/sparse.c:151-168 | count, header, blocks and end chunk, from the offset of the file on |
| SparseFile.SparseFile.Len | bin/src/simg2img/sparse.c:241-270 | the counting callback sees exactly what the writer would write |
| Encode.PutBlocksSparse | bin/src/simg2img/sparse.c:131-140 | the sparse writer emits one contiguous encoding, as many chunks as were counted, and the CRC of the blocks |
| Encode.SparseWrites | bin/src/simg2img/sparse.c:151-168 | for every list and length: the writer stops exactly when a block ends beyond the file, otherwise the file is the encoding, and the number of chunks emitted is the number in its header if and only if the image is whole blocks |
| Encode.PointerEndsAtLen | bin/src/simg2img/output_file.c:364-399 | `cur_out_ptr` ends at the image length if and only if no extent rounds up to more than an `int` holds |
| Encode.SizesAddUp | bin/src/simg2img/output_file.c:344-442 | the `chunk_sz` fields emitted for extents, gaps and the hole at the end add up to `total_blks`, for every image of whole blocks |
| Encode.LengthPrediction | bin/src/simg2img/sparse.c:241-270 | for every list and length, `sparse_file_len` of a sparse file succeeds exactly when the writer does, and is then the size of the file written, with or without CRC |
| Encode.RawLength | bin/src/simg2img/include/sparse/sparse.h:163-175 | of a raw file it is the image length if and only if no fill ends inside a block: the padding of a fill is not counted |
| Encode.RawPutBlocks | bin/src/simg2img/output_file.c:477-521 | when no fill but the last extent ends inside a block, the raw writer changes exactly the bytes that extents cover and leaves every other byte of the file alone |
| Encode.RawWrites | bin/src/simg2img/sparse.c:151-168 | for the same lists, written raw over any file, the result is that file with the extents overlaid, cut or extended to the image length; it fails exactly when an extent ends in a partial block at the end |
| Encode.RawOffsetsExactly | bin/src/simg2img/output_file.c:494-521 | every extent goes to its own place in a raw file if and only if no fill but the last extent ends inside a block: the padding of a fill is not skipped |
| Encode.FillDisplaces | bin/src/simg2img/output_file.c:494-521 | a whole block behind half a filled one is written at offset 4 instead of 8, by example |
| Encode.AppendPositive | bin/src/simg2img/backed_block.c:268-281 | appending in order keeps extents non-empty and fills a number of whole blocks |
| SparseRead.StepKeepsAscending | bin/src/simg2img/sparse_read.c:222-271 | whatever bytes a chunk has, an accepted one keeps the block numbers of the list in increasing order, also when the block counter has wrapped |
| SparseRead.StepKeepsReader | bin/src/simg2img/sparse_read.c:222-271 | an accepted chunk that does not wrap the block counter keeps the list sorted, disjoint and behind the counter |
| SparseRead.ImportIsSound | bin/src/simg2img/sparse_read.c:420-474 | whatever file is read, an accepted one has as many blocks as its header announces, modulo 2^32, and a list with increasing block numbers; when the block size is not zero and its chunk sizes add up to the announced number without wrapping, the list is sorted, disjoint and inside the image |
| Wrapping.OverlapAccepted | bin/src/simg2img/sparse_read.c:345-350 | a file of 96 bytes whose chunks go once around the block counter is accepted with overlapping extents, by example |
| Wrapping.OutsideAccepted | bin/src/simg2img/sparse_read.c:345-350 | a file of one block is accepted with an extent at block 0xFFFFFFFE, by example |
| Wrapping.ZeroBlockSizeAccepted | bin/src/simg2img/sparse_read.c:420-474 | a header alone is accepted with a block size of zero, by example |
| ReaderCrc.StepKeepsCrc | bin/src/simg2img/sparse_read.c:121-199 | after each accepted chunk of an image below 2^32 bytes the running CRC is that of the image expanded so far, holes counted as zero |
| ReaderCrc.StepsKeepCrc | bin/src/simg2img/sparse_format.h:30-32 | the same after any number of chunks of an image below 2^32 bytes |
| ReaderCrc.ExpandQueued | bin/src/simg2img/sparse_read.c:116-119 | a queued extent of whole blocks adds exactly its bytes to the expansion |
| SparseReader.HashFile | bin/src/simg2img/sparse_read.c:121-130 | the buffered loop hashes exactly the chunk's bytes and fails exactly when the file ends first |
| SparseReader.HashBuffer | bin/src/simg2img/sparse_read.c:162-174 | hashing a buffer of the word again and again gives the CRC of the whole fill, four dividing the buffer size |
| SparseReader.ProcessRawChunk | bin/src/simg2img/sparse_read.c:100-136 | size checks, the added extent, offset and CRC as the specification of a raw chunk says |
| SparseReader.ProcessFillChunk | bin/src/simg2img/sparse_read.c:138-177 | the same for a fill chunk |
| SparseReader.ProcessSkipChunk | bin/src/simg2img/sparse_read.c:179-199 | a don't-care chunk is hashed as zeros |
| SparseReader.ProcessCrcChunk | bin/src/simg2img/sparse_read.c:201-220 | refused exactly when its size is wrong, the file ends, or the value is not the running CRC |
| SparseReader.ReadChunk | bin/src/simg2img/sparse_read.c:324-346 | one turn of the loop is one step of the specification, with its outcome and its block counter |
| SparseReader.ReadSparse | bin/src/simg2img/sparse_read.c:273-353 | all chunks, then the check that the blocks counted are those announced |
| SparseReader.ImportFile | bin/src/simg2img/sparse_read.c:420-474 | a new sparse file with block size, length and list as the specification of import computes them, or its error |
| RoundTrip.ChunkFields | bin/src/simg2img/sparse_format.h:42-47 | a chunk header is read with the type and sizes it was written with |
| RoundTrip.HeaderFields | bin/src/simg2img/sparse_format.h:21-33 | a file header is accepted and read with the values it was written with |
| RoundTrip.DecodeBlocks | bin/src/simg2img/sparse_read.c:324-346 | the reader passes the encoding of any list, chunk for chunk, and gains its padded bytes |
| RoundTrip.PadKeepsImage | bin/src/simg2img/output_file.c:426-430 | zero padding made explicit does not change the expansion, nor the holes when extents are whole blocks |
| RoundTrip.ImportOfWritten | bin/src/simg2img/sparse_read.c:420-474 | importing what was written succeeds exactly when the CRC chunk, if written and checked, holds the CRC of the image; it then gives the same block size, length, expansion and, for whole extents, holes |
| Wire.WrittenBytes | bin/src/simg2img/output_file.c:344-468 | the file written, with its CRC, for a list with a hole, a fill, data that ends inside a block and a hole at the end, byte for byte |
| Wire.ReadBytes | bin/src/simg2img/sparse_read.c:222-353 | the list read from a file with longer headers, a fill, an unknown chunk, a hole, a slice and a CRC chunk given byte for byte; refused exactly when the CRC is wrong and checked |
| Wire.HeaderExactly | bin/src/simg2img/sparse_read.c:420-474 | a header is accepted exactly for the magic number, major version one, and header sizes of at least 28 and 12 |
| Wire.RawExactly | bin/src/simg2img/sparse_read.c:100-133 | a raw chunk is accepted exactly when it announces whole blocks as many as it says, its block number is unused, and, for a CRC, its bytes are there |
| Wire.OthersExactly | bin/src/simg2img/sparse_read.c:135-220 | a fill or a CRC chunk is accepted exactly with four bytes that are there, a hole with none; a CRC only when it is right or not checked |
| Wire.RawOfGiven | bin/src/simg2img/simg2img.c:67-83 | simg2img makes the twelve bytes of that image of the file, whether its CRC is right or wrong |
| Wire.AutoOfGiven | bin/src/simg2img/sparse_read.c:476-506 | append2simg imports it as sparse, whether its CRC is right or wrong |
| Wire.RepeatedWord | bin/src/simg2img/img2simg.c:92-109 | img2simg makes a header and one fill chunk, 44 bytes, of every raw file of whole blocks that repeats one word |
| Partial.PartialAborts | bin/src/simg2img/sparse.c:142-143 | for an image that is not whole blocks the assertion fails exactly when an extent ends in the partial block |
| Partial.WriteThenImport | bin/src/simg2img/sparse.c:142-146 | writing and importing an image works if and only if it is a number of whole blocks |
| Partial.FillPadding | bin/src/simg2img/include/sparse/sparse.h:83-86 | the promised zero padding of a fill of any length holds if and only if the bytes of the pattern that fall into the padding are zero |
| Partial.WordFillPadding | bin/src/simg2img/include/sparse/sparse.h:83-86 | for a fill of whole words that is if and only if it is whole blocks or its value is zero |
| Partial.PaddingNotZero | bin/src/simg2img/include/sparse/sparse.h:83-86 | half a block filled with ones is read back as a whole one, by example |
| Partial.HashedExactly | bin/src/simg2img/include/sparse/sparse.h:156-157 | the bytes that the writer hashes are the expanded image if and only if there is no hole, no fill of more than one block, and nothing missing at the end |
| Partial.StoredCrc | bin/src/simg2img/output_file.c:392-396 | the CRC stored is that of the hashed bytes: data with its padding, and one block of each fill |
| Partial.GapFreeCrc | bin/src/simg2img/output_file.c:392-396 | for an image without holes whose fills are single blocks, the writer's CRC is the one the reader expects |
| Partial.HoleCrcRefused | bin/src/simg2img/output_file.c:344-368 | an image of one hole written with CRC is refused by the reader: the hole is read as zeros but never hashed |
| Sparsify.IsUniform | bin/src/simg2img/sparse_read.c:379-386 | true exactly when every word of the block is its first |
| Sparsify.BlockHeld | bin/src/simg2img/sparse_read.c:379-396 | every block of a raw file lies in one extent of its list: in a fill if and only if it is whole and repeats its first four bytes, otherwise in the slice of the descriptor at its own offset |
| Sparsify.AppendCoalesced | bin/src/simg2img/backed_block.c:268-281 | appending in order keeps a list free of neighbours that could still merge |
| Sparsify.SparsifiedIsFile | bin/src/simg2img/sparse_read.c:355-405 | the list of a raw file expands to that file, is fully coalesced and is an image that can be written |
| Sparsify.ReadNormal | bin/src/simg2img/sparse_read.c:355-405 | the loop builds that list, and fails exactly when the file is shorter than the image |
| Resparse.FitsSize | bin/src/simg2img/sparse.c:303-330 | the bytes counted are those of the blocks that fit, and the next block would exceed the budget |
| Resparse.CutKeeps | bin/src/simg2img/sparse.c:315-333 | a cut leaves two well-formed images that together have the bytes and holes of the original |
| Resparse.CutProgress | bin/src/simg2img/sparse.c:354-366 | every pass that stops early leaves strictly less, counting bytes and blocks together, on every list |
| Resparse.CutBytes | bin/src/simg2img/sparse.c:354-366 | a piece and what is left have the bytes of the list between them, and of a well-formed image the piece has some |
| Resparse.PiecesConserve | bin/src/simg2img/sparse.c:341-373 | every piece is a well-formed image of the full length; end to end they are sorted, disjoint and have the bytes and holes of the original |
| ResparseSize.SizeIsBytes | bin/src/simg2img/sparse.c:304-310 | the byte count kept while cutting is the size of the chunks that will be written |
| ResparseSize.PiecesBelowLimit | bin/src/simg2img/include/sparse/sparse.h:281-282 | every piece written without CRC is smaller than the limit although a split ignores a gap header; with CRC it exceeds the limit by at most that header |
| ResparseSize.CrcBelowLimit | bin/src/simg2img/sparse.c:289-294 | a piece written with CRC is smaller than the limit if and only if its chunks, with that for a hole at the end, exceed the budget by less than a chunk header |
| ResparseSize.CrcBelowLimitExactly | bin/src/simg2img/sparse.c:315-326 | for a piece that others follow that is if and only if a block of data is split and rounding the room down to whole blocks gives up more than the header of the gap before it, or no block is split and the budget is not used up |
| ResparseSize.PiecesNearlyFull | bin/src/simg2img/sparse.c:315-326 | every piece but the last holds at least the budget less an eighth less one chunk header |
| ResparseSize.NearlyFullExactly | bin/src/simg2img/sparse.c:315-326 | a piece that stopped early is at least 7/8 full if and only if the room left was split, or was within an eighth even with the header that the test takes off it |
| ResparseTwice.SecondPassAgrees | bin/src/simg2img/simg2simg.c:73-85 | resparsing what a counting pass split and put back cuts at the same places and gives the same count |
| ResparseTwice.CutAgain | bin/src/simg2img/sparse.c:303-333 | a piece followed by anything that begins like its rest is cut off again unchanged, also where a split overshot by a gap header |
| ResparseLimits.ProgressExactly | bin/src/simg2img/sparse.c:321-325 | resparse makes progress on every list if and only if the budget is below a chunk header or at least a chunk header and a block |
| ResparseLimits.EmptyBlockExactly | bin/src/simg2img/sparse.c:321-325 | a piece of any image has an empty block if and only if it ends with a split for which less than one block of room was left |
| ResparseLimits.EmptyBlockBelowLimit | bin/src/simg2img/sparse.c:321-325 | one byte below the limit assumed here a piece can end in an empty block, by example |
| ResparseLimits.CrcExceedsLimit | bin/src/simg2img/sparse.c:289-294 | the excess of one header that a CRC chunk allows does occur, by example |
| ResparseLimits.NotNearlyFull | bin/src/simg2img/sparse.c:315-319 | a piece can be less than 7/8 full, by example: 72 bytes of a budget of 96 |
| ResparseFile.PassOver | bin/src/simg2img/sparse.c:303-330 | the loop over the nodes, with the counting callback, stops at the first block that does not fit |
| ResparseFile.MoveChunksUpToLen | bin/src/simg2img/sparse.c:277-339 | the nodes of exactly one piece move to the target, the rest stay, and the result is null exactly at the end of the list |
| ResparseFile.ResparseInto | bin/src/simg2img/sparse.c:341-373 | the array receives the first pieces, the input gets all others back in order, and the count is that of all pieces |
| Reassemble.ImportedIsWellFormed | bin/src/simg2img/simg2img.c:67-71 | the list imported from a written file is again an image that can be written |
| Reassemble.OwnerHasByte | bin/src/simg2img/simg2img.c:73-81 | a byte that one piece has is that of the whole image, and no other piece has it |
| Reassemble.OrderSoFar | bin/src/simg2img/simg2img.c:56-84 | after any number of pieces in any order each byte is that of the image once its piece has been written, and zero before |
| Reassemble.SplitAndReassemble | bin/src/simg2img/simg2img.c:56-84 | the pieces of any image, written as sparse files and written over one empty file in any order, repeated or not, give its expansion |
| Tools.WriteOver | bin/src/simg2img/simg2img.c:67-83 | import, rewind and raw write of one file, or failure, also for a block size of zero, by which the writer divides |
| Tools.Simg2Img | bin/src/simg2img/simg2img.c:56-84 | all inputs over one output that starts out empty; stops at the first failure |
| Tools.CountThenCut | bin/src/simg2img/simg2simg.c:73-89 | the array sized by the counting pass is filled exactly by the cutting pass |
| Tools.Simg2Simg | bin/src/simg2img/simg2simg.c:67-110 | the files written are the encodings of the pieces of the imported image; none when it cannot be imported or has a block size of zero |
| Tools.SplitIsInvisible | bin/src/simg2img/simg2simg.c:91-110 | simg2img on the files of simg2simg in any order gives what it gives on the original file |
| Tools.SplitAndJoin | bin/src/simg2img/simg2simg.c:67-110 | simg2simg gives up exactly when simg2img does; otherwise simg2img on the files that it writes, stored anywhere and taken in any order, gives what it gives on the input |
| Tools.FilesBelowLimit | bin/src/simg2img/simg2simg.c:91-110 | every file that simg2simg writes is shorter than the limit |
| Tools.BackendsAgree | bin/src/simg2img/output_file.c:344-533 | the raw file of any list is the expansion of what its sparse file is read as |
| Tools.Img2Simg | bin/src/simg2img/img2simg.c:60-109 | a file is written exactly for an accepted block size and an input of whole blocks |
| Tools.RawThereAndBack | bin/src/simg2img/img2simg.c:92-109 | img2simg followed by simg2img gives the raw file again |
| Append.AppendIsConcatenation | bin/src/simg2img/append2simg.c:101-112 | adding an input of whole blocks that fits in 32 bits and lengthening the image makes the expansion the old one followed by the input |
| Append.AppendRoundTrip | bin/src/simg2img/append2simg.c:101-124 | written and imported again, the expansion is the old one followed by the input |
| Append.ImportAutoFile | bin/src/simg2img/sparse_read.c:476-506 | a file that is not sparse is taken as raw with blocks of 4096 bytes |
| Append.AutoWhole | bin/src/simg2img/sparse_read.c:476-506 | a sparse image is always whole blocks, a raw one when its length is a multiple of 4096 |
| Append.AppendExactly | bin/src/simg2img/append2simg.c:101-124 | written and imported again, the expansion is the old one followed by the input if and only if the old image is whole blocks; otherwise the program stops when the partial block is an extent of its own, and writes a file that the library refuses when it is not |
| Append.PartialAppend | bin/src/simg2img/append2simg.c:107 | the extent rounded down into a partial block is written, but the chunk for the rest of that block is missing, so the file is refused |
| Append.StopsAfterOneByte | bin/src/simg2img/append2simg.c:107-108 | appending to a raw file of one byte stops the program, by example |
| Append.OverlapsRun | bin/src/simg2img/append2simg.c:107-119 | appending to a raw file of 4097 bytes whose blocks were merged writes a file that is refused, by example |
| Append.Append2Simg | bin/src/simg2img/append2simg.c:85-124 | the file written, or the stop, for whole and for partial images as the specification says; nothing for an input that is empty or not whole blocks |
| Append.WholeAppendLength | bin/src/simg2img/append2simg.c:85-124 | the file written has exactly the header, the chunks of the lengthened list and no CRC chunk |
| BootImage.HeaderRoundTrip | bin/src/abootimg/bootimg.h:28-50 | a header that is written is read back field for field |
| BootImage.HeaderLayout | bin/src/abootimg/bootimg.h:28-50 | each field of a written header lies at its own offset, 608 bytes in all |
| BootImage.NewHeaderBytes | bin/src/abootimg/abootimg.c:880-893 | a new header is the magic, pages of 2048 bytes, and zeros |
| BootImage.CheckHeaderExactly | bin/src/abootimg/abootimg.c:280-315 | a header is accepted exactly for the magic, a kernel and a ramdisk that are not empty, and room for the header page and the three parts in whole pages |
| BootImage.RegionsInOrder | bin/src/abootimg/abootimg.c:519-524 | when sizes do not wrap, each part starts at or after the end of the one before and the last ends within the total |
| BootImage.UpdateExtracts | bin/src/abootimg/abootimg.c:509-699 | the file written holds the updated header, the new bytes of the parts given and the old bytes of the others, although parts move and padding runs into the next part, and however many of the last bytes are still buffered at the truncation; its length is exact, the size asked for or whole-page padding beyond it |
| BootImage.HeaderWritten | bin/src/abootimg/abootimg.c:633-699 | the updated header is at the front of the file, also when the page size has been changed, with all settings kept and only the sizes of the parts updated |
| BootImage.PaddingWritten | bin/src/abootimg/abootimg.c:633-699 | below the size asked for, whatever holds no part is zero behind the header and behind every part written, for a whole page more when the last part ends on a page, and is as in the old file everywhere else |
| BootImage.PartIs | bin/src/abootimg/abootimg.c:509-629 | a part file that is not empty and shorter than 2^32 bytes is loaded whole |
| BootImage.UpdateExactly | bin/src/abootimg/abootimg.c:509-629 | an update is accepted exactly when no part given is empty and the total fits, and can be written exactly when some part is given or there is no second stage |
| BootImage.WrittenSettles | bin/src/abootimg/abootimg.c:633-699 | bytes still buffered when the descriptor is truncated change nothing below the size asked for, and lengthen the file exactly as far as the last write reaches |
| BootImage.PageLonger | bin/src/abootimg/abootimg.c:696 | a new image of three pages comes out with four when one byte of padding is still buffered, by example |
| BootImage.UpdateCanBeOpened | bin/src/abootimg/abootimg.c:280-315 | the header check accepts what an update or a creation wrote if and only if the file is shorter than 2^32 bytes |
| BootImage.BootImg.ReadHeader | bin/src/abootimg/abootimg.c:362-390 | reads the header and the size and applies the check |
| BootImage.BootImg.UpdateImages | bin/src/abootimg/abootimg.c:509-629 | loads new parts, or old ones that will move, in the order kernel, ramdisk, second stage, then checks the size |
| BootImage.BootImg.WriteBootimg | bin/src/abootimg/abootimg.c:633-699 | header, parts and paddings go through the stream buffer, written out at every seek; the truncation goes past it; fails exactly when a second stage was not loaded |
| BootImage.BootImg.ExtractKernel | bin/src/abootimg/abootimg.c:768-796 | the bytes at the kernel's place, or failure |
| BootImage.BootImg.ExtractRamdisk | bin/src/abootimg/abootimg.c:800-832 | the bytes at the ramdisk's place, or failure |
| BootImage.BootImg.ExtractSecondStage | bin/src/abootimg/abootimg.c:836-872 | the bytes of the second stage when there is one that is no larger than its buffer |
| BootImage.SecondStageRefused | bin/src/abootimg/abootimg.c:851 | a second stage of two bytes behind a kernel of one is in the image and not extracted, by example |
| BootConfig.NumberRoundTrip | bin/src/abootimg/abootimg.c:421 | a number printed with %x is read back by strtoul, for all 32-bit values |
| BootConfig.NumberRead | bin/src/abootimg/abootimg.c:421 | strtoul reads blanks, a sign, a prefix for its base and the digits of any number up to the first other character as that number, negated modulo 2^64 or saturated at 64 bits |
| BootConfig.DecimalRead | bin/src/abootimg/abootimg.c:421 | decimal and octal digits of a number are read back as that number, for all 32-bit values |
| BootConfig.TypedDecimal | bin/src/abootimg/abootimg.c:421 | the text 2048 is read as 2048 |
| BootConfig.EnteredSetting | bin/src/abootimg/abootimg.c:394-421 | a line with any blanks around its key and its equals sign, ended by a newline or not, assigns to its key its value without leading blanks |
| BootConfig.NoAssignment | bin/src/abootimg/abootimg.c:413-414 | a line without an equals sign stops the program |
| BootConfig.LongerKeys | bin/src/abootimg/abootimg.c:423-455 | a longer word that begins like a key sets the field of that key, but for the command line, whose key is compared whole |
| BootConfig.AssignedByKey | bin/src/abootimg/abootimg.c:423-455 | each key sets its own field and no other, although keys are compared by prefix in a fixed order |
| BootConfig.ParsedPlain | bin/src/abootimg/abootimg.c:463-505 | whatever text is parsed, plain strings stay plain |
| BootConfig.ConfigRoundTrip | bin/src/abootimg/abootimg.c:744-764 | printing and parsing restore size, page size, addresses, name and command line if and only if neither string has a newline or a leading blank or tab |
| BootConfig.PrintedApplied | bin/src/abootimg/abootimg.c:744-764 | a printed configuration with plain strings sets exactly its own fields over any earlier configuration |
| BootConfig.PrintedText | bin/src/abootimg/abootimg.c:744-764 | the text printed for one configuration, character for character |
| BootConfig.ParsedTwice | bin/src/abootimg/abootimg.c:476-481 | a text that ends with a newline and the text behind it have the effect of both in a row |
| BootConfig.StoredBytes | bin/src/abootimg/abootimg.c:427-432 | a string is cut to its field less one, and the rest of the field is cleared |
| BootConfig.UpdateHeaderEntry | bin/src/abootimg/abootimg.c:394-460 | one line sets one field, or stops the program |
| BootConfig.UpdateHeader | bin/src/abootimg/abootimg.c:463-505 | the lines of a text are applied in order |
| BootConfig.WriteConfig | bin/src/abootimg/abootimg.c:744-764 | the eight lines of the configuration |
| Abootimg.Update | bin/src/abootimg/abootimg.c:926-932 | read, configure, load and write, or stop |
| Abootimg.Create | bin/src/abootimg/abootimg.c:934-946 | the same for a new file, with the header checked before it is written |
| Abootimg.Extract | bin/src/abootimg/abootimg.c:917-924 | configuration and parts, up to the first that cannot be read |
| Abootimg.ArgumentsSet | bin/src/abootimg/abootimg.c:485-504 | settings given with -c are in force whatever the configuration file says |
| Abootimg.FileSets | bin/src/abootimg/abootimg.c:465-483 | without -c the settings of the file are in force |
| Abootimg.ArgumentOverFile | bin/src/abootimg/abootimg.c:463-505 | a command line given with -c replaces that of the file, and the other settings of the file stay |
| Abootimg.ConfiguredAtOnce | bin/src/abootimg/abootimg.c:463-505 | a configuration file and then the arguments have the effect of both in one text |
| Abootimg.DecimalSettings | bin/src/abootimg/abootimg.c:421-453 | a decimal number given with -c sets the size, the page size or an address to that number and nothing else |
| Abootimg.UpdateSettings | bin/src/abootimg/abootimg.c:926-932 | the header of an updated file has every setting given with -c, or in the file when there is no -c, and the file has the size that was set, but for a page |
| Abootimg.UpdateWithout | bin/src/abootimg/abootimg.c:926-932 | an update without settings keeps all settings of the header, and the length but for a page |
| Abootimg.CreateSettings | bin/src/abootimg/abootimg.c:934-946 | the header of a created file has every setting given with -c, or in the file when there is no -c |
| Abootimg.ConfigExtracted | bin/src/abootimg/abootimg.c:744-764 | the extracted configuration, parsed over any other, gives the length of the file as the size, and every setting of its header |
| Abootimg.ExtractThenUpdate | bin/src/abootimg/abootimg.c:917-932 | updating an image with its own extracted configuration succeeds exactly when it has no second stage, and leaves its header as it was, with the bytes behind its strings cleared |
| Abootimg.UpdateThenExtract | bin/src/abootimg/abootimg.c:509-699 | for every configuration that leaves the page size alone, any subset of new parts and any number of buffered bytes, the updated file holds the wanted parts, and opens if and only if it is shorter than 2^32 bytes |
| Abootimg.ExtractsAfterUpdate | bin/src/abootimg/abootimg.c:768-872 | extracting the updated file succeeds if and only if it is shorter than 2^32 bytes, and gives the new and old parts; the second stage exactly when it is no larger than the kernel |
| Abootimg.CreateThenExtract | bin/src/abootimg/abootimg.c:934-946 | a created file holds the parts that were given, and opens if and only if it is shorter than 2^32 bytes |

## Left out

- Errors of the operating system and of allocation, interrupted and partial writes, the zlib backend: files are byte
  strings.
- Bytes of a backing file beyond its end read as zero; mapping them in the program gives zeros up to the page and a
  signal after it.
- Adding an extent inside one that is in use, which the library forbids its callers, is covered where its tools do it:
  the reader's empty chunks, a reader whose counter has wrapped, and append2simg. What such a list denotes is not: writing
  it is covered, its merges are only kept in order.
- Empty extents are not written: mapping no bytes of a descriptor fails in the program.
- Encode.LengthPrediction: counts without a bound, which is what the program does for extents that fit an `int`, because
  the callback would count a longer one as negative.
- Encode.RawLength: the same.
- SparseFile.SparseFile.Len: is for extents that fit an `int`, for the same reason.
- Append.Append2Simg: the temporary file is taken not to exist before, because it is opened without truncation; the
  input and the image together, with one block more, stay below 2^32 bytes; and a sparse image is one that
  `Encode.WellFormed` describes, so it has no empty extents, none that overlap, and a block size that is zero or a
  multiple of four.
- Tools.WriteOver: is for sparse files whose extents are not empty and end below block 2^32, and whose block size is a
  multiple of four or zero.
- Tools.Simg2Img: is for inputs whose lists the writers accept, which every file written by the library is.
- Tools.Simg2Simg: is for well-formed imported images of whole blocks with extents that fit an `int`, and a limit that is roomy enough
  for resparse; `ResparseLimits.ProgressExactly` says when a smaller one would never end.
- Tools.Img2Simg: a block size above 2^31 - 1, which a negative argument gives, is not covered.
- BootImage.BootImg.WriteBootimg: a page smaller than the header is not covered: the length of the padding wraps and the
  program reads beyond its buffer. `Abootimg.Update` and `Abootimg.Create` report that as a stop.
- Abootimg.Update: what is left in the file when the program stops is not described.
- Abootimg.Create: the same.
- Abootimg.Extract: is for names and command lines that are terminated inside their fields, as `BootConfig.WriteConfig` is.
- Abootimg.UpdateThenExtract: configurations that change the page size, for which the offsets of the old parts have no
  meaning.
- BootConfig.WriteConfig: is for names and command lines that are terminated inside their fields, because the program would print
  beyond them otherwise.
- Block devices, the blkid check, argument parsing and printed information of the command-line programs.
- `sparse_file_foreach_chunk`, accessors, destruction of lists and verbose errors: they would only add easy members.
- `bin/src/aml_image_extractor.c`, the scripts and the packaging of the repository.
