# VNL

VNL is a small x86-64 kernel with a desktop. This project models the parts of
it whose correctness is least visible in the code, and proves what they promise.

- **Image decoders** (`include/stb_image.h`). DEFLATE: the code tables, the fast
  and the slow way to read a symbol, copies into a growing buffer. GIF: the LZW
  table, the order in which rows are drawn. PNG: the row filters over two
  alternating buffers, alpha expansion in place, Adam7. JPEG: code tables with
  their accelerators, the bit reader, the steps of an AC block. Each decoder is
  proved equal to a reference meaning of the bits, and the references have
  encoders, after the formats' own specifications, that they undo.
- **Memory** (`pmm.c`, `vmm.c`, `uspace.c`, `elf_load.c`, `shm.c`). The frame
  bitmap, page tables stored as bytes in the frames it hands out, address spaces
  that share root slot 511, the ELF loader that writes through those tables, and
  shared-memory objects that own frames.
- **The heap** (`heap.c`). Headers, footers and list links are words in one byte
  array. The blocks tile it, tags agree, and the list holds the free blocks.
- **The scheduler** (`sched.c`). A class refines a step machine; safety and
  bounded waiting are proved of every run of that machine.
- **Fonts** (`stb_truetype.h`). The edge sort, whose scans have no bounds checks,
  and the character lookup of cmap format 4.
- **Files and text** (`vfs.c`, `printf.c`, `string.c`). The node table as a tree
  and the paths in it; printing and reading of numbers; `memmove`.

Code that changes things in place is modelled by classes and methods over
arrays; each method is specified by functions, and the lemmas are about those
functions. What a function computes is stated again by a lemma that does not use
its formula: a table or rule of the format, an inverse, or the effect element by
element. Bits are read through a function from positions to bits, so that a
bit buffer is one window into a stream.

## What does not hold

Some of what one would expect of the code is false. Each such case has a lemma
with the exact condition or a concrete input.

- **Requests above `LARGEST`.** `kmalloc` adds the overhead of a block in 64
  bits. A block holds as many bytes as were asked for exactly when the request
  is at most 2^64 - 8224, and asking stores behind the heap exactly between there
  and 2^64 - 4128 (`KernelHeap.Heap.Kmalloc`). `kcalloc` and `krealloc` write past
  the end of such a block: `kcalloc` always, `krealloc` exactly when the old block
  holds more than the new one (`KernelHeap.Heap.Kcalloc`, `KernelHeap.Heap.Krealloc`).
- **Lengths of shared memory above 2^64 - 4096.** Rounding up to pages wraps to
  zero: the length is accepted, and the object has no page behind it
  (`Shm.SharedMemory.Truncate`).
- **Sleeping alone.** `task_sleep` returns at once exactly when no other task is
  READY (`SchedModel.SleepReturnsAtOnce`).
- **The 256th JPEG symbol.** Index 255 marks codes that are not accelerated. A
  table decodes every input as it should exactly when it has at most 255 symbols
  or a last code of more than nine bits (`JpegCode.StagesAgreeIff`); a table of
  256 eight-bit codes is misread (`JpegCode.FlatIsMisread`).
- **Long names and long paths.** A leaf of 64 characters or more is cut when it is
  stored, but split when it is looked up; and of the path of its parent only 255
  characters are kept. A new node is found at its own path exactly when the leaf
  fits or what is cut off is a single dot, and what is kept of the parent's path
  leads to the same directory as all of it (`VfsPaths.FoundIff`). What is not found
  can be made again, as a sibling of the same name (`VfsPaths.MadeAgain`,
  `VfsTree.MadeTwice`). Names of shared memory have the same limit
  (`Shm.OpenedIsFound`).
- **Nodes without a name.** `vfs_open` does not ask for a leaf: the path `//` makes a
  node with an empty name, which no tree has (`VfsTree.EmptyName`).
- **Numbers beyond 63 bits.** What is printed is read back unchanged exactly when
  64 bits, signed, can hold it (`Numbers.RoundTrip`).
- **High flag bits.** `vmm_map` ors the flags into the address. With a flag above
  bit 11, such as the no-execute bit, the page leads to its own frame exactly
  when the address has those bits already (`Flags.MappedFrameIsExact`).
- **Ranges at the top of memory.** The end of a range wraps around.
  `vmm_unmap_range_pml4` takes exactly the pages that the range touches if and only
  if the range is empty or ends below 2^64 (`Vmm.UnmapIsExactIff`); unmapping the
  last page does nothing. The loop never ends exactly when the wrapped end lies
  above 2^64 - 4096 (`Vmm.NeverPastEnd`).
- **Segments of nearly 2^64 bytes.** The loader sees the size of a segment as it is
  exactly when its offset in the first page plus its size is at most 2^64 - 4096, or
  its end lies above 2^65 - 4096 (`Elf.SizesAreSeenIff`). A segment of 2^64 - 1 bytes
  is loaded as one of a page (`Elf.LoadWrapped`). A range past the end of the file
  is seen as one exactly when its end does not wrap around to a place inside the
  file (`Elf.RangesAreSeenIff`).
- **Listed glyphs with a delta.** In format 4 of the cmap table OpenType adds the
  delta of a segment to glyph numbers found through its range offset. The lookup
  does not. It gives the right glyph exactly unless the character's segment has a
  range offset and a delta and the number found is not zero (`Cmap.FindGlyph`);
  `Cmap.ShiftIsLost` is a subtable whose glyph 6 is found as 5.
- **Length 258 twice.** Symbol 284 with all extra bits set is read as length 258,
  which the table in section 3.2.5 of RFC 1951 does not list
  (`Lz77.RangesAreAdjacent`).
- **The heap in a new address space.** Only slot 511 is shared. The heap lies in
  slot 384, so a new space does not map it (`AddressSpaces.HeapIsNotShared`).

## Where comments and code differ

The model follows the code.

- The GIF decoder says that it supports images without a clear code at the start
  (`include/stb_image.h:6713`), and refuses them (`include/stb_image.h:6745`). Its
  test `code == avail` (`include/stb_image.h:6757`) comes after the increment and
  never holds; a code that defines itself comes out right because its `first` is
  set one line earlier. After 4096 codes the table goes on growing to 8192.
- `do_switch` means to keep the current task running when no other is ready
  (`src/kernel/sched.c:82-85`). A current task that is READY is found by the
  search, so that branch is never taken.
- The sanity checks in the slow path of the Huffman decoder
  (`include/stb_image.h:4236-4237`) never fail for a table that was built.
- The heap does not merge a block with the one before it, which its comment on
  growth admits (`src/mm/heap.c:93-94`); adjacent free blocks remain.
- The ELF loader maps the pages of a segment before it checks that the file holds
  the segment (`src/kernel/elf_load.c:87-98`).
- `vfs_open` creates a node with an empty name where `vfs_mkdir` refuses to
  (`src/fs/vfs.c:168-186`).
- The quicksort leaves its pivot, and the element between its two sides, where
  they are (`include/stb_truetype.h:3461-3477`); only the insertion sort behind it
  makes the result sorted.

## Model

| member | source | states |
|---|---|---|
| BitReverse.ReverseIsRev | include/stb_image.h:4107-4122 | for every number and width up to 16 the four mask-and-shift steps followed by a shift give the low bits in reverse order, that is, the reversal defined bit by bit |
| CanonicalCode.AcceptedIffKraft | include/stb_image.h:4132-4149 | the level-by-level size test accepts a length list exactly when its Kraft sum is at most one, that is, when some prefix code has these lengths |
| CanonicalCode.PrefixFree | include/stb_image.h:4138-4165 | under the code assignment of section 3.2.2 of RFC 1951 no input begins with the codes of two symbols |
| CanonicalCode.CodesAreConsecutive | include/stb_image.h:4138-4165 | the rule of section 3.2.2 of RFC 1951: the first symbol in the order of lengths and numbers has a code of zeros, and each further one the code before it plus one, with zeros appended up to its own length |
| CanonicalCode.RfcExample | include/stb_image.h:4138-4165 | the eight codes of the example in that section |
| ZHuffman.Tables.Build | include/stb_image.h:4124-4169 | the builder accepts exactly the lists that pass the size test, and the tables it then leaves represent the canonical code: fast entries, level limits, symbols in order |
| BitReader.Reader.Decode | include/stb_image.h:4192-4271 | the fast table, then the slow path, gives the symbol whose canonical code begins the input and consumes exactly its length; -1 comes only when there is no such symbol or the reader was past the end of its input already |
| Lz77.CopyIsPeriodic | include/stb_image.h:4348-4354 | a copy keeps all earlier output and byte j of it is byte j modulo the distance of the last bytes before it, also when it overlaps itself |
| Inflate.Output.CopyMatch | include/stb_image.h:4348-4354 | the loop over the buffer, with its shortcut for distance one, appends exactly what copying byte by byte from the distance back means |
| Lz77.RangesAreAdjacent | include/stb_image.h:4295-4307 | the length and distance tables leave no gap: each range starts where the previous one ends, from 3 to 258 and from 1 to 32768; only the range of symbol 284 reaches one further, to the length of symbol 285 |
| Lz77.ExtraBitsAsSpecified | include/stb_image.h:4299-4307 | the numbers of extra bits are those of section 3.2.5 of RFC 1951, which with the ranges adjacent fixes every base |
| Inflate.Output.Grow | include/stb_image.h:4273-4293 | growing keeps the output and makes room for what was asked; it is refused only when that exceeds what doubling can reach within memory |
| Inflate.Inflater.ParseBlock | include/stb_image.h:4309-4357 | a block that is accepted appends the LZ77 meaning of its tokens and leaves the reader behind it; one that lies within the input and reaches back no further than the output is refused only for lack of room |
| Lz77.BlockUnique | include/stb_image.h:4309-4357 | the input determines the tokens of a block and where it ends, so what the decoder returns is the only meaning |
| BlockEncoding.SymbolRoundTrip | include/stb_image.h:4243-4271 | a symbol written with its canonical code is the symbol that the reference of the decoder reads there |
| BlockEncoding.SymbolsRoundTrip | include/stb_image.h:4243-4271 | the same for every sequence of symbols, one after the other; with the contract of the decoder this makes decoding the inverse of encoding |
| BlockEncoding.TokenRoundTrip | include/stb_image.h:4313-4343 | a literal or a copy, written with any admissible symbols and extra bits, is read as that token, and reading goes on right behind it |
| BlockEncoding.BlockRoundTrip | include/stb_image.h:4309-4357 | every list of tokens written as a block is what the block means, whatever symbols it uses; the block ends with its last bit |
| InflateEncoding.ParseWritten | include/stb_image.h:4309-4357 | the decoder run on a block that was written appends what its tokens mean and stops right behind it; it does not refuse where the block lies in the input, its copies in the output, and there is room |
| InflateEncoding.DescribedIsExpanded | include/stb_image.h:4316-4354 | tokens that describe data, literal by literal and each copied byte equal to the one its distance before it, expand to the data |
| InflateEncoding.ParseCompressed | include/stb_image.h:4309-4357 | with the tables of DEFLATE: data compressed with any literals, lengths 3 to 258 and distances 1 to 32768 that describe it, and any codes that have their symbols, is what the decoder puts out |
| Lzw.FirstIsFirst | include/stb_image.h:6755-6757 | in every table whose prefixes point downwards, the `first` of a defined code is the first symbol of what the code expands to |
| Lzw.AddEntry | include/stb_image.h:6749-6757 | a new entry keeps the table well-formed and expands to the previous phrase plus the first symbol of the code's phrase, also for the code that it defines itself |
| Lzw.StandsForNext | include/stb_image.h:6744-6768 | after each accepted code the table stands for the phrases sent so far with the new one added, and the code expands to that phrase |
| Lzw.RefusedIff | include/stb_image.h:6744-6771 | exactly which codes are refused: before the first clear code, too far ahead, or in a table of 8192 entries |
| LzwCoding.SizeKept | include/stb_image.h:6730-6766 | every step keeps the code size between the start size and 12, large enough for every code that can come and no larger than that needs |
| LzwCoding.RoundTrip | include/stb_image.h:6718-6773 | decoding the LZW codes of a text gives the text back, for every text and wherever its bits lie in the stream |
| Gif.Decoder.OutCode | include/stb_image.h:6654-6689 | the recursion over prefixes ends and gives out exactly the expansion of the code, drawing it on the canvas symbol by symbol |
| Gif.Decoder.ProcessRaster | include/stb_image.h:6691-6774 | for every input the decoder gives out and draws the text that the LZW codes in the data blocks mean, and returns exactly the error at which the meaning ends; a code size above 12 is refused |
| GifEncoding.ImageRoundTrip | include/stb_image.h:6691-6774 | the image data of any text of symbols, LZW-coded and cut into blocks, means that text whatever bytes follow |
| GifRaster.EveryRowOnce | include/stb_image.h:6677-6688 | interlaced or not, and for every height, the order of rows visits every row of the image exactly once |
| GifRaster.RowsAsSpecified | include/stb_image.h:6677-6688 | an image that is not interlaced is drawn from top to bottom, an interlaced one in four passes: rows 0, 8, ..., then 4, 12, ..., then 2, 6, ..., then 1, 3, ... |
| GifRaster.DrawnPixel | include/stb_image.h:6664-6688 | a shown symbol of the text ends up in the column and row that its position says |
| GifRaster.UndrawnPixel | include/stb_image.h:6664-6688 | a pixel to which no shown symbol goes keeps its old value |
| PngFilter.Paeth | include/stb_image.h:4657-4668 | the predictor by comparison with a threshold equals the one of section 6.6 of RFC 2083 for all integers |
| PngFilter.PaethIsNearest | include/stb_image.h:4657-4668 | that predictor is the neighbour nearest to left plus up less up left, the first of left, up and up left when several are |
| PngFilter.FilteredAsSpecified | include/stb_image.h:4737-4787 | what the filters 0 to 4 take from a byte: nothing, left, up, the mean, the predictor, with zero outside the image, modulo 256 |
| PngFilter.ReconUndoesFilter | include/stb_image.h:4737-4787 | reconstruction of a filtered row gives the row back, for each of the five filters of RFC 2083 and any row above |
| PngFilter.ImageRoundTrip | include/stb_image.h:4737-4787 | reconstruction gives every image back, whatever filter each of its rows uses |
| PngFilter.FirstRowSolves | include/stb_image.h:4648-4655 | in the first row the substituted filters give what the filter asked for gives over a zero row, whatever the other buffer holds |
| Png.RowDecoder.DecodeRows | include/stb_image.h:4737-4787 | the loop over two alternating row buffers, with the substitution in the first row, computes the reference reconstruction of all rows, and fails exactly at an unknown filter |
| Png.DecodeWritten | include/stb_image.h:4737-4787 | the loop run on the data of a filtered image, each line a filter byte and a row, gives the rows back |
| PngSamples.ExpandGrey | include/stb_image.h:4679-4683 | expansion from the back leaves each grey pixel with its own value and alpha 255, and what lies behind alone, whether or not source and target are one array |
| PngSamples.ExpandColour | include/stb_image.h:4684-4692 | the same for three colour bytes |
| Adam7.AlongIsExact | include/stb_image.h:4880-4881 | the unsigned subtraction that wraps for narrow images wraps back: the size of a pass is the rounded-up quotient |
| Adam7.ExactlyOnce | include/stb_image.h:4873-4895 | a place in the seven passes lands on pixel (x, y) exactly when the pixel lies in the image and the place is its home; so every pixel is written once |
| Adam7.PassesAsSpecified | include/stb_image.h:4874-4877 | in which pass a pixel comes is what the pattern in section 2.6 of RFC 2083 says |
| Adam7.PassOrder | include/stb_image.h:4888-4895 | within a pass pixels come row by row and from left to right |
| Adam7.SizesAddUp | include/stb_image.h:4873-4881 | the sizes of the seven passes sum to width times height |
| Adam7.Deinterlace | include/stb_image.h:4873-4900 | the loops leave every pixel of the image with the value that its home in the passes holds |
| JpegHuffman.Huffman.Build | include/stb_image.h:2003-2046 | building succeeds exactly for at most 256 symbols whose codes fit their lengths, and the tables then represent the code of section C.2 of ITU-T T.81 |
| JpegHuffman.ListedCounts | include/stb_image.h:2008-2014 | of each length there are as many symbols as the table says |
| JpegCode.StagesAgreeIff | include/stb_image.h:2097-2146 | fast table, then slow search, gives the symbol and length of the code for all 16-bit inputs exactly when the table has at most 255 symbols or the last of 256 codes is longer than nine bits |
| JpegCode.FlatIsMisread | include/stb_image.h:2097-2146 | for 256 codes of eight bits, a table the builder accepts, some input is decoded to something other than the code says |
| JpegReader.BuildFastAc | include/stb_image.h:2050-2073 | every entry of the combined table is the specified one for its nine bits |
| JpegReader.FastAcIsReference | include/stb_image.h:2050-2073 | a nonzero entry says the same run, signed value and number of bits as decoding the code and then receiving and extending the value, for whatever bits follow, in tables of any size |
| JpegReader.SeenIsReference | include/stb_image.h:2231-2261 | for tables that are not misread the step that the two stages see is the step of the reference |
| JpegEncoding.ExtendIsTable | include/stb_image.h:2153-2166 | the values of n bits have magnitudes of n bits, are negative exactly when the first bit is zero, and grow with the bits |
| JpegEncoding.ValueRoundTrip | include/stb_image.h:2153-2166 | a value written as the bits of its magnitude, inverted when it is negative, is read as that value |
| JpegEncoding.StepRoundTrip | include/stb_image.h:2231-2261 | end of block, sixteen zeros, or a run and a coefficient, written by any table that has the symbol, is the step that the reference reads there |
| JpegEncoding.DecodeWritten | include/stb_image.h:2231-2261 | the decoder with its fast tables, run on a step that was written, gives the step and stops behind it |
| JpegBits.StuffedIsRead | include/stb_image.h:2075-2091 | bytes written with a zero behind each 0xFF are read as they were, up to a marker or the end |
| JpegReader.Reader.Grow | include/stb_image.h:2075-2091 | refilling shows at least 25 bits of the entropy-coded data, without its stuffed bytes, or all that is left before a marker or the end |
| JpegReader.Reader.HuffDecode | include/stb_image.h:2097-2146 | for every table the builder accepts, the decoder gives the value of the symbol that fast table and slow search see, and consumes its length; -1 only when they see none or it reaches past the data |
| JpegReader.Reader.ExtendReceive | include/stb_image.h:2153-2166 | receiving with the sign trick gives the signed value of the next bits as section F.2.2.1 of ITU-T T.81 extends it, and zero when the bits are not there |
| JpegReader.Reader.DecodeAc | include/stb_image.h:2231-2261 | one step of an AC block, by the combined table or not, is the step that begins with the symbol the two stages see, and consumes its bits; with `JpegReader.SeenIsReference` that is the step of the reference |
| Pmm.FrameAllocator.Init | src/mm/pmm.c:37-53 | exactly the frames from the first megabyte up to the end of memory are free, and the counter says how many |
| Pmm.FrameAllocator.Reserve | src/mm/pmm.c:55-66 | exactly the frames that the byte range touches stop being free |
| Pmm.FrameAllocator.Alloc | src/mm/pmm.c:68-85 | gives the lowest free frame and takes it out; null exactly when no free frame lies in memory |
| Pmm.FrameAllocator.Release | src/mm/pmm.c:87-93 | the frame is free afterwards, all others are as before, and the counter stays right when it was free already |
| Pmm.AlignUpIs | src/mm/pmm.c:55-66 | rounding up gives the least multiple of a page at or above, and zero when it wraps around |
| Vmm.Machine.GetPte | src/mm/vmm.c:37-62 | walks to the last-level table that the bytes of the tables lead to, adding zeroed tables when asked; no translation changes; it fails only below a huge page or with fewer than three free frames |
| Vmm.Machine.MapPage | src/mm/vmm.c:100-106 | exactly the page of the address changes its frame, in all spaces that share it and no other; table frames stay a tree of distinct frames, and data frames stay as they are |
| Vmm.Machine.UnmapRange | src/mm/vmm.c:108-121 | exactly the pages from that of the start up to the end lose their mapping, the end being taken in 64 bits |
| Vmm.Machine.Lookup | src/mm/vmm.c:123-146 | the walk over the bytes of the tables gives the frame of the page and the offset, 0 when it is not mapped |
| Vmm.Machine.CreateSpace | src/mm/uspace.c:6-22 | the new root sees what the current one sees in slot 511 and nothing elsewhere; all other spaces see what they saw |
| Vmm.NeverPastEnd | src/mm/vmm.c:108-121 | whatever number of rounds the loop makes, its page, with wrapping addresses, lies below the end of the range, exactly when that end is above 2^64 - 4096 |
| Vmm.UnmapIsExactIff | src/mm/vmm.c:108-121 | the loop takes exactly the pages that the range touches if and only if the range is empty or ends below 2^64 |
| Flags.MappedFrameIsExact | src/mm/vmm.c:100-146 | a page leads to the frame it was mapped to exactly when flag bits above bit 11 are set in the address already; flags in the low twelve bits always are fine |
| Flags.EntryBits | src/mm/vmm.c:37-62 | the entry of a table is its frame, present and writable; that of a page is its frame with the flags asked for, and present |
| AddressSpaces.Run | src/mm/vmm.c:100-121 | any run of maps and unmaps on the page tables does what it does on a plain map from pages to frames; it stops only at a mapping below a huge page or with no frame left |
| AddressSpaces.LastMappingHolds | src/mm/vmm.c:100-146 | after any run an address translates to the frame its page was last mapped to, with its own offset, in every space that shares the page |
| AddressSpaces.UnmappedLast | src/mm/vmm.c:108-146 | after any run an address whose page was unmapped last does not translate |
| AddressSpaces.OtherSpacesAreIsolated | src/mm/uspace.c:6-22 | no run through other roots changes what a root sees below slot 511 |
| AddressSpaces.SharedIsTop | src/mm/uspace.c:6-22 | the slot shared is the top 512 GiB of the 48-bit addresses |
| AddressSpaces.HeapIsNotShared | src/mm/uspace.c:6-22 | a space just created maps no address of the kernel heap |
| Elf.LoadSegment | src/kernel/elf_load.c:78-107 | for every size in the file: unless frames run out or a huge page is in the way, loading ends as the loader sees the sizes; then every byte of the segment in the pages it mapped holds the file's byte or zero, and pages elsewhere keep their mapping |
| Elf.Load | src/kernel/elf_load.c:56-110 | for files whose sizes the loader sees as they are: unless frames run out or a huge page is in the way, the outcome is that of the first segment that is refused, or success; after success the entry is the header's, the break is the least page boundary above all segments, and every byte of every segment reads as the file or zero when segments share no page; a bad header changes nothing |
| ElfFormat.PhdrIsRead | src/kernel/elf_load.c:29-38 | a program header laid out as the ELF-64 format says is read as that header |
| ElfFormat.EhdrIsRead | src/kernel/elf_load.c:56-73 | a file header laid out as the format says is accepted, and its entry, offset and number of program headers are read |
| ElfFormat.AcceptedIff | src/kernel/elf_load.c:59-70 | which bytes of a file header are looked at, and what they must be |
| ElfFormat.LoadedIff | src/kernel/elf_load.c:78-79 | a program header is loaded exactly when its type is 1 |
| Elf.SizesAreSeenIff | src/kernel/elf_load.c:82-85 | the loader refuses a segment that is too large, and otherwise maps as many pages as it touches, if and only if its end does not wrap around to its first page or above |
| Elf.RangesAreSeenIff | src/kernel/elf_load.c:97-98 | the test on a file range agrees with the range if and only if its end does not wrap around to a place inside the file |
| Elf.VerdictIff | src/kernel/elf_load.c:82-98 | both together: how loading ends is as the sizes say if and only if neither test is misled |
| Elf.LoadWrapped | src/kernel/elf_load.c:78-107 | loading a segment of 2^64 - 1 bytes, which should be refused, succeeds unless frames run out or a huge page is in the way, and its second page stays unmapped |
| KernelHeap.Heap.Init | src/mm/heap.c:100-119 | the heap starts as one free block over its first pages; it fails exactly for no pages or too few frames |
| KernelHeap.Heap.HeapExpand | src/mm/heap.c:77-96 | the new pages become one free block at the front of the list and no payload changes; too few frames change nothing |
| KernelHeap.Heap.Kmalloc | src/mm/heap.c:121-151 | gives the first block of the list that is large enough, whole or split into what is needed and one free block with the rest, or grows once and retries once; the block is new, aligned, large enough exactly for requests up to `LARGEST`, and no other block changes; it faults exactly for requests from there to 2^64 - 4128 |
| KernelHeap.GrowthCovers | src/mm/heap.c:148-150 | the heap grows by enough for the retry, although the retry adds the overhead a second time |
| KernelHeap.Heap.Kfree | src/mm/heap.c:173-194 | frees exactly that block, with the bytes of a free block behind it, which is gone; all other blocks and payloads stay, and the block comes first in the list; freeing a free block is caught |
| KernelHeap.Heap.TakeAndGiveBack | src/mm/heap.c:121-194 | giving a block back at once leaves all blocks as they were, exactly unless it was not split and a free block lies behind it, which is then merged |
| KernelHeap.NeedIsLeast | src/mm/heap.c:124-125 | the size of a block is the least multiple of eight that has room for the request, header and footer and is a block at all |
| KernelHeap.GrowthIsLeast | src/mm/heap.c:149 | the heap grows by the fewest pages that hold a page more than needed |
| KernelHeap.Heap.Kcalloc | src/mm/heap.c:153-159 | a new block of the product in 64 bits whose bytes are zero, no other payload changed; zeroing overruns the block exactly for products above `LARGEST` that get one |
| KernelHeap.Heap.Krealloc | src/mm/heap.c:161-171 | a new block that begins with the old contents, large enough exactly for sizes up to `LARGEST`; the old block is gone and no other payload changes; copying overruns the new block exactly when it is smaller than both the size and the old block; when it fails, everything stays |
| KernelHeap.Heap.Write | src/mm/heap.c:143 | a client that writes within its payload changes no other block, no tag and no link |
| HeapLayout.BlockOf | src/mm/heap.c:43-58 | in every valid heap each byte lies in exactly one block |
| KernelHeap.Heap.ListIsFreeSet | src/mm/heap.c:60-74 | in every valid heap, following the links in memory from the head meets exactly the free blocks, each once, and then null; following them back meets the same in the opposite order |
| HeapLayout.UnlinkKeepsList | src/mm/heap.c:60-66 | the pointer surgery on the bytes leaves a doubly linked list of the other blocks in their order |
| Sched.Scheduler.DoSwitch | src/kernel/sched.c:67-99 | the search for the next READY slot is the switch of the step machine: same state, same stack pointer to resume; page table and kernel stack are those of the task picked |
| Sched.Scheduler.TimerTick | src/kernel/sched.c:102-114 | a timer interrupt is the Tick step: it wakes those whose time has come, then switches |
| Sched.Scheduler.TaskSleep | src/kernel/sched.c:222-228 | the current task sleeps until the tick plus its delay, and the rest is the Sleep step |
| Sched.Scheduler.TaskExit | src/kernel/sched.c:212-220 | the current task is dead, and the rest is the Exit step |
| Sched.Scheduler.TaskCreate | src/kernel/sched.c:146-170 | a new task is the Create step: READY, with its stack, page table, number and frame; -1 exactly without a slot or a stack |
| Sched.Scheduler.PidAlive | src/kernel/sched.c:195-202 | true exactly for the number of a task that was created and is not dead |
| SchedModel.RunInv | src/kernel/sched.c:67-228 | over every run at most one task is RUNNING and it is the current one, and numbers stay unique |
| SchedModel.CallerAfter | src/kernel/sched.c:67-228 | what each call, or a tick, does to the current task: dead after an exit, asleep until its time after a sleep, READY or running after a yield or tick, and its stack pointer saved |
| SchedModel.CreatedAfter | src/kernel/sched.c:146-170 | creation appends one READY task and changes no other |
| SchedModel.PickedIsNearest | src/kernel/sched.c:74-98 | the task that is picked is the nearest one behind the current, cyclically, that can go on, the current one last |
| SchedModel.BoundedWaiting | src/kernel/sched.c:67-99 | a READY task is picked within MAX_TASKS - 1 switches, whatever happens and however many tasks are created meanwhile |
| SchedModel.SleepsUntil | src/kernel/sched.c:107-111 | over every run whose ticks stay below its time, a sleeper that gave way is neither woken nor picked |
| SchedModel.SleepDuration | src/kernel/sched.c:102-114 | a sleeper that gave way sleeps through all ticks before the one its delay says, and wakes at that one |
| SchedModel.SleepReturnsAtOnce | src/kernel/sched.c:222-228 | the sleeper keeps running exactly when no other task is READY |
| SchedModel.DeadForGood | src/kernel/sched.c:212-220 | over every run a dead task stays dead and, once it is not the current one, is never picked |
| SchedModel.ExitIsFinal | src/kernel/sched.c:212-220 | after an exit and any run the task is dead, and never current again if another one was READY |
| SchedModel.ResumedWhereSaved | src/kernel/sched.c:67-99 | after any run the task that is picked continues with the stack pointer it was last saved with, or with its first one |
| Shm.SharedMemory.Truncate | src/kernel/shm.c:36-70 | the four outcomes, exactly; failure changes nothing; success keeps the bytes up to the new length, zeroes new pages and leaves the other objects alone; free and owned frames together stay the same; the object stays sound exactly for lengths up to 2^64 - 4096 |
| Shm.SharedMemory.ReadAt | src/kernel/shm.c:72-105 | reading page by page gives the slice of the object as one byte sequence, cut at its size |
| Shm.SharedMemory.WriteAt | src/kernel/shm.c:107-140 | writing page by page replaces that slice, growing the object when needed, and changes no other object; the three errors, exactly; a failed write changes nothing |
| Shm.SharedMemory.WriteThenRead | src/kernel/shm.c:72-140 | what was written is read back, and every other byte is the old one, or zero where there was none |
| Shm.ResizedAt | src/kernel/shm.c:36-70 | the same byte by byte after a change of length |
| Shm.SharedMemory.Destroy | src/kernel/shm.c:155-169 | the slot is free, its frames and only those have no owner any more, and free and owned frames together stay the same |
| Shm.SharedMemory.Open | src/kernel/shm.c:15-34 | gives the first object of that name, or else the first free slot with an empty object, or an error exactly when all are taken |
| Shm.OpenedIs | src/kernel/shm.c:24-31 | a new object is empty and has the first 63 characters of the name |
| Shm.OpenedIsFound | src/kernel/shm.c:15-34 | opening a new name twice gives the same object exactly when the name has fewer than 64 characters |
| Shm.FramesAreDistinct | src/kernel/shm.c:36-70 | in every sound state no frame lies behind two pages, of one object or of two |
| EdgeSort.MedianToFront | include/stb_truetype.h:3426-3446 | the three elements are rearranged so that a median comes first; one of the others is not below it, which stops the scan from the left |
| EdgeSort.Partition | include/stb_truetype.h:3448-3468 | the unchecked scans stay inside the part, each exchange renews the element that stops them, and the two sides lie on their sides of the pivot and are shorter |
| EdgeSort.InsertionSort | include/stb_truetype.h:3401-3417 | the front is sorted, a permutation of itself, and the rest is untouched |
| EdgeSort.SortEdges | include/stb_truetype.h:3481-3485 | the front is sorted by key and holds the same edges as before; the rest is untouched |
| Cmap.Search | include/stb_truetype.h:1518-1550 | the biased binary search finds the first segment that ends at or above the character, for every number of segments, as a linear scan does |
| Cmap.FindGlyph | include/stb_truetype.h:1498-1562 | the glyph is the one the format 4 subtable of OpenType maps the character to, if and only if it is not listed in a segment with a delta; then it is the number listed |
| Cmap.DeltaIsAdded | include/stb_truetype.h:1557-1559 | without a range offset the glyph is the character plus the delta, modulo 2^16 |
| Cmap.ExampleIsFound | include/stb_truetype.h:1518-1562 | the lookup run on the example of the OpenType specification gives its glyphs, for every character |
| Cmap.ShiftIsLost | include/stb_truetype.h:1557-1561 | in one well-formed subtable the glyph of character 0 is 6 and 5 is found |
| VfsTree.ResolveIsWalk | src/fs/vfs.c:47-84 | a path of proper names leads where walking the tree name by name leads |
| Vfs.FileSystem.ResolvePath | src/fs/vfs.c:47-84 | the loop over the characters computes what the path means, for every string |
| Vfs.FileSystem.ResolveParent | src/fs/vfs.c:87-113 | gives where the path before the last slash leads, and the leaf behind it, cut to the size of its field |
| VfsTree.CreateKeepsTree | src/fs/vfs.c:168-186 | a new node keeps the table a tree with unique inodes and unique sibling names |
| Vfs.FileSystem.CreateNode | src/fs/vfs.c:316-334 | creation does what is specified or is refused and changes nothing; it covers files, directories and devices, with and without the check for an empty leaf; what that is for proper paths is said by `VfsTree.CreationIff`, `VfsTree.MadeAsAsked` and `VfsTree.ProperCreation` |
| VfsTree.ProperCreation | src/fs/vfs.c:316-334 | after creation at a path of proper names that path leads to the new node, every other path that led somewhere leads to the same node, and the table is a tree |
| VfsTree.CreationIff | src/fs/vfs.c:316-334 | a node can be made at a proper path exactly when its directory is there, has no such child, and a slot is free |
| VfsTree.MadeAsAsked | src/fs/vfs.c:316-334 | the node found under the new number has the kind asked for, the name of the leaf and the directory as its parent; every other slot is as it was |
| VfsTree.MadeBelowNew | src/fs/vfs.c:316-334 | below a node just made another can be made exactly when it is a directory and a slot is left |
| Vfs.FileSystem.CreateAt | src/fs/vfs.c:316-334 | the method, for proper paths: when it succeeds, what is found, its kind, and that nothing else changes |
| VfsTree.EmptyName | src/fs/vfs.c:168-186 | a path of two slashes makes a node without a name exactly where no leaf is asked for, and the table is then no tree |
| VfsTree.CreatedLeaf | src/fs/vfs.c:168-186 | for a leaf of any length, when what is kept of the parent's path leads to the parent: where its path leads afterwards, and that this is the new node exactly when the leaf fits or what does not fit is a single dot |
| VfsPaths.FoundIff | src/fs/vfs.c:87-113 | for parent paths and leaves of any length: the new node is found at its path if and only if the leaf fits, or what does not fit is a single dot, and the 255 characters kept of the parent's path lead to the same directory as all of it |
| VfsPaths.MadeAgain | src/fs/vfs.c:168-186 | creation at the same path succeeds again exactly when the node is not found there and a slot is free, and then two siblings have one name |
| VfsTree.MadeTwice | src/fs/vfs.c:316-334 | a leaf that does not fit is made a second time exactly when a slot is free, and then two siblings have one name |
| Vfs.FileSystem.Unlink | src/fs/vfs.c:336-355 | removal does what is specified or is refused and changes nothing; directories with children are refused |
| VfsTree.Removal | src/fs/vfs.c:336-355 | removal keeps the tree, the node is gone, and every walk that does not visit it goes as before |
| VfsTree.RemovalIff | src/fs/vfs.c:336-355 | a node can be removed exactly when the path leads to it, it is not the root, and nothing is in it if it is a directory; its slot alone is given up |
| VfsTree.PathNameLeadsBack | src/fs/vfs.c:525-549 | the path of a live node, built from its names, leads back to the node from everywhere |
| Vfs.FileSystem.GetCwd | src/fs/vfs.c:525-549 | the path built backwards in the buffer is that of the current directory, and resolves to it |
| Numbers.RoundTrip | src/lib/string.c:126-152 | in each base, with either sign and any padding, reading a printed number gives it wrapped to 64 bits: the number itself exactly when 64 bits, signed, hold it; and reading stops right behind the digits |
| Numbers.WrappedOnce | src/lib/string.c:138-151 | keeping the sum in 64 bits at each digit gives the value of all digits wrapped once |
| Numbers.PrintedShape | src/lib/printf.c:68-86 | the text is as wide as asked for, or as it must be; where sign, digits, blanks and zeros stand |
| Numbers.DigitsAreLeast | src/lib/printf.c:58-66 | no zero in front, and letters of the case asked for |
| Numbers.BaseIsInferred | src/lib/string.c:132-138 | without a base, the prefix says whether digits are read in base 16, 8 or 10 |
| Strings.Strtol | src/lib/string.c:126-152 | for every text and base the loops compute the specified number and end |
| Printing.FmtUint | src/lib/printf.c:47-87 | exactly the specified characters are written at the position, and no others change |
| Printing.PrintThenRead | src/lib/printf.c:47-87 | the two procedures one after the other: the number comes back exactly when 64 bits, signed, hold it |
| Strings.MemMove | src/lib/string.c:69-80 | the target holds what the source range held before, also when the two overlap, and the rest is unchanged |

## Left out

What the model does not promise:

- Inflate.Inflater.ParseBlock: whether a block that runs past its input is refused is not stated; zeros are read there.
- JpegReader.Reader.HuffDecode: what follows the end of the data is left open.
- JpegReader.Reader.ExtendReceive: asks for 1 to 15 bits; what is returned when they reach past the data is stated only as far as it is zero.
- Gif.Decoder.ProcessRaster: where the reader stands after the image is not stated.
- Png.RowDecoder.DecodeRows: asks for enough bytes, as the caller has checked before (`include/stb_image.h:4725`).
- Adam7.Deinterlace: asks for sizes below 2^32 - 8; the decoder refuses any above 2^24.
- Vmm.Machine.UnmapRange: asks for a range that does not end in the last page; for one that does the loop never ends, says `Vmm.NeverPastEnd`.
- Vmm.Machine.MapPage: tells a store through a null entry and a panic apart, but not in which order several causes would show.
- Vmm.Machine.CreateSpace: address bits 48 to 63 are ignored, as the walk does, so two addresses that differ there are one.
- AddressSpaces.Run: unmaps are those that `Vmm.Machine.UnmapRange` takes.
- Elf.LoadSegment: asks that what is copied lies in the file and in the pages mapped for the segment. A file part larger than these pages would go to whatever is mapped behind them.
- Elf.Load: asks for files whose sizes the loader sees as they are; for the others see `Elf.LoadSegment`. What was mapped before a failure is not stated, nor is it undone by the loader.
- KernelHeap.Heap.HeapExpand: `frames` counts frames for data only. Frames that mapping takes for new page tables, and failures of mapping, are not modelled.
- KernelHeap.Heap.Kmalloc: for requests above 2^64 - 4128 it is not said how often the heap grows.
- KernelHeap.Heap.Krealloc: asks for a block in use. The model stops before a copy that overruns; so does zeroing.
- KernelHeap.Heap.Kfree: asks for the start of a block; other pointers are not modelled.
- Sched.Scheduler.TaskSleep: sleeping, and ending a task, is one step with the switch that follows, since the code disables interrupts around it.
- Sched.Scheduler.TaskCreate: the frame built on the new stack, names and break addresses are left out; the stack is a parameter.
- SchedModel.SleepDuration: holds as long as the tick counter does not wrap within the delay.
- Shm.SharedMemory.WriteAt: asks for an end of at most 2^64 - 4096; above, the length wraps as in `Truncate`.
- Cmap.Search: asks for the header fields and segment ends as OpenType defines them.
- Cmap.FindGlyph: formats 0, 6 and 12 are left out; bytes past the end of the font read as zero.
- Vfs.FileSystem.CreateAt: is about paths of nonempty names shorter than 64 characters, other than the dots, of at most 256 characters in all; `VfsTree.CreatedLeaf` is about longer leaves.
- VfsTree.CreatedLeaf: asks that the parent path does not go up, or that the parent has no such leaf; `VfsPaths.FoundIff` that it does not go up.
- VfsPaths.MadeAgain: asks that what is kept of the parent's path has no component `..`.
- Vfs.FileSystem.GetCwd: asks for a current directory that was not removed and a path of at most 1023 characters, which is what its own buffer holds; the buffer of the caller is taken to be large enough.
- Numbers.RoundTrip: padding is spaces or zeros, and the text that follows begins with no digit of the base and no `x`.
- Printing.FmtUint: asks for one of the bases 2, 8, 10 and 16 and for room in the buffer, which the code does not check.
- Strings.Strtol: signed overflow, which C leaves undefined, is taken as two's-complement wrap-around.

What is not modelled:

- Drivers, interrupts, boot code, the desktop and user programs.
- Floating point and the font rasteriser; edges have integer keys.
- Vector instructions, which the kernel disables in the decoders.
- The zlib header, stored blocks and the description of dynamic codes; their block loop would add no harder claim.
- Bits below eight per sample, palettes, colour conversion and transparency keys of PNG.
- JPEG blocks beyond the AC step: DC prediction, progressive scans, the inverse transform.
- The translation cache and permission bits; the walk ignores both.
- Frames as hardware memory: physical memory and the heap are byte sequences, a word is eight bytes in little-endian order.
- File contents, descriptors and directory listings of the file system.
- The directives of `kvsnprintf`, except that each number goes through `FmtUint`.
- Long C functions are split into several methods; each is named after what it does.
