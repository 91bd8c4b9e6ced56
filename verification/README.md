# Verification of the scanner, the query compiler and the schema codec

This project models the parts of the repository that find and decode structures in another process's
memory, and proves what they promise.

* **The chunked scanner** reads a range `read_size` bytes at a time into a head+tail buffer, driven by a
  four-status machine. `ScanBuffers` is the buffer as a class over an array, with the loop as it is
  written; `NaiveScan` is the scan it should equal; `ScanExactness` says exactly when it does, and
  `UnpaddedScans` exactly when that is every match of the pattern's own bytes.
* **The pattern implementations**: packed words and 32-lane vectors are shown to refine byte patterns,
  through optimisation, concatenation and the scan loops (`BytePatterns`, `Simd32Patterns`,
  `WordPatterns`, `ScanPatterns`, `PatternStructs`).
* **Schemas and queries**: fields and gaps tile a struct, printing and parsing are inverse up to gaps and
  bools, field values compile to masked bytes, and masked bytes to a trimmed pattern; `QueryBlocks` says,
  from field values to addresses, exactly when a query returns the structs that have the values it gives
  (`SchemaLayouts`, `SchemaCodecs`, `SchemaBytes`, `SchemaRoundTrips`, `SchemaReprints`, `SchemaExtensions`,
  `MaskedBytes`, `QueryExactness`, `Queries`, `QueryStreams`, `QueryBlocks`, `ReadableBlocks`, `HexPatterns`).
  `SchemaGenerators` and `GeneratedSchemas` cover generated schema source.
* **The result protocol**: the bounded channel with its forwarding thread and the scan-set process, as
  steps over all interleavings (`ErlChannels`, `ScanSets`).
* **Memory regions and C++ strings**: merging (`Regions`), and the patterns of short and long
  `std::string` objects for two compilers (`GccStrings`, `VcppStrings`).

`dafny verify dfyconfig.toml` checks everything. Bytes are integers from 0 to 255, addresses are unbounded
naturals, and machine words are 64 bits wide and little-endian. A reader is memory, a set of ranges whose
reads fail, and what a failed read leaves behind.

## Where the code differs from what one would expect

The model follows the code; each point has a lemma.

* A range of at most one read is scanned with the whole tail, so stale bytes past its end can match
  (`ScanExactness.ShortRangeIsInexact`). After a failed read, the last chunk's matches are reported too low
  (`ScanExactness.SkippedBeforeLastIsInexact`). `ScanExactness.ChunkedScanExactIff` is the exact condition
  for the scan to equal the naive scan over windows of the implementation's size.
* Those windows are padded: a pattern of up to 32 bytes is only found with 32 bytes of room, so matches near
  the end of a readable stretch are missed also under that guard (`UnpaddedScans.PaddingHidesMatch`). The
  documented "all results" (libkrebs/src/mem/buffer.rs:234), taken for the pattern's own bytes, holds exactly
  under the condition of `UnpaddedScans.UnpaddedExactIff`.
* A thread's buffer stays attached to the process of the scanner that first used the thread, also when a
  scanner of another process scans there later (`Scanners.ScanTwoProcesses`); `Scanners.ScansOwnIff` and
  `ScanProcesses.ScansOwnProcessIff` are the exact condition.
* A query on an embedded field also compares that field's inner gaps, with 0xCC, and any true bool as 1
  (`QueryExactness.GapHidesStruct`); `QueryExactness.QueryExactIff` says which comparisons are exact.
* Scans look at 4-aligned addresses only, and compare from a struct's first significant byte on. A query whose
  first significant byte is not aligned in the struct finds no aligned struct at all, even if it compares exactly
  (`ReadableBlocks.UpperHalfNeverFound`, `QueryBlocks.MisalignedNeverFound`), and padding hides structs at the end
  of a block. End to end, `QueryBlocks.QueryFindsIff` and `ReadableBlocks.BlockQueryExactIff` are the exact condition.
* `overlaps` is false for a range strictly inside the other, so merged regions can nest
  (`Regions.UnmergeableApart`, `Regions.NestedBlocksStayApart`, `Regions.MergeSeparatesIff`).
* A reset during a scan drops the callers waiting and does not stop the job
  (`ScanSets.ResetSafeIff`, `ScanSets.ResetDuringScanMixesMatches`).
* `get_alloc_size` is documented to panic above 1,170,157 (libkrebs/src/cpp_std/vcpp/string.rs:290), but
  already does at that length (`VcppStrings.AllocSizeLeast`). Long strings that have grown are accepted but
  not matched (`VcppStrings.LongPatternMissesOthers`).
* `AddressRange` documents its end as inclusive (libkrebs/src/mem/reader.rs:32), while its size and the
  scanner treat it as exclusive; the model does the latter. Only merging counts touching ranges as overlapping
  (`Regions.TouchingRangesOverlap`).
* A generated schema omits an offset where the specified sizes leave no gap, so a size that is not its
  type's own moves later fields (`GeneratedSchemas.WrongSizeMovesField`). Names are validated trimmed but
  emitted as they are, so a blank in front makes the line unreadable
  (`GeneratedSchemas.BlankInFrontIsUnreadable`). `GeneratedSchemas.GeneratedReproducesIff` is the exact condition.
* The generated codec binds fields to variables of their names. A field named `_` or `__MODULE__` passes
  validation and is declared, and then the module does not compile (`GeneratedSchemas.UnderscoreIsNoVariable`,
  `SchemaDeclarations.DeclaredIsValid`). A struct with a field named `assoc_type` is parsed and cannot be
  printed (`SchemaReprints.NamedLikeMetadata`, `SchemaRoundTrips.StructPrintsIff`).
* A field cannot be declared directly behind an empty array, which counts as overlapping it
  (`SchemaLayouts.EmptyFieldIsInTheWay`).

## Model

| member | source | states |
|---|---|---|
| BytePatterns.ConcatMasksKept | libkrebs/src/util.rs:12-26 | Concatenating two optional masks keeps each side's positions as they were, a missing mask keeping everything; the result has a mask iff a part has one |
| BytePatterns.AddMatchesConcatenation | libkrebs/src/pattern_scan/byte_pattern.rs:73-87 | The sum of two patterns matches `x + y` iff the parts match `x` and `y`, for every mix of masks |
| BytePatterns.MatchesKept | libkrebs/src/pattern_scan/byte_pattern.rs:51-70 | A pattern matches iff the bytes agree at every position its mask keeps |
| Bytes.AndMask | libkrebs/src/pattern_scan/simd32_pattern.rs:51-81 | A mask byte of 0xFF keeps a byte and one of 0x00 erases it, at the level of bits |
| Simd32Patterns.FromKeepsPattern | libkrebs/src/pattern_scan/simd32_pattern.rs:83-107 | Padding to 32 lanes loses nothing: the cached bytes and mask are the original's, position by position |
| Simd32Patterns.LanesAgree | libkrebs/src/pattern_scan/simd32_pattern.rs:132-140 | Masked vectors are equal iff the bytes agree wherever the mask keeps them |
| Simd32Patterns.Simd32RefinesBytes | libkrebs/src/pattern_scan/simd32_pattern.rs:51-140 | For a pattern of at most 32 bytes the padded, masked vector comparison of a 32-byte window agrees with the bytewise comparison of the window's true bytes |
| WordPatterns.ToWordVec | libkrebs/src/pattern_scan/word_pattern.rs:129-139 | The window loop packs a byte vector into its little-endian words |
| WordPatterns.WordsAreLittleEndian | libkrebs/src/pattern_scan/word_pattern.rs:129-139 | The bytes of each packed word, from the least significant on, are the vector's in order |
| WordPatterns.WordsInjective | libkrebs/src/pattern_scan/word_pattern.rs:129-139 | Byte vectors are equal iff their packed words are |
| WordPatterns.WordsAnd | libkrebs/src/pattern_scan/word_pattern.rs:44-98 | "And"-ing packed vectors word by word packs the bytewise "and" |
| WordPatterns.WordsRefineBytes | libkrebs/src/pattern_scan/word_pattern.rs:172-192 | The packed, masked word comparison agrees with the bytewise one, for every value and mask whose length is a multiple of the word size |
| WordPatterns.WordAddIsByteAdd | libkrebs/src/pattern_scan/word_pattern.rs:248-262 | Adding word patterns packs the sum of the byte patterns they came from |
| ScanPatterns.PatternRefinesBytes | libkrebs/src/pattern_scan/mod.rs:130-186 | Every implementation compares like its byte pattern and ignores the padding of its window |
| ScanPatterns.ScanStep | libkrebs/src/pattern_scan/mod.rs:170-185 | One iteration of any scan loop advances the reference scan by one aligned window |
| ScanPatterns.ScanBufferBytes | libkrebs/src/pattern_scan/mod.rs:170-185 | The default loop returns exactly the reference scan: every aligned window with room that matches, in address order, with its bytes |
| ScanPatterns.ScanBufferMaskedWords | libkrebs/src/pattern_scan/word_pattern.rs:194-246 | The masked word loop returns exactly the byte pattern's reference scan |
| ScanPatterns.ScanBufferPlainWords | libkrebs/src/pattern_scan/word_pattern.rs:194-246 | The unmasked word loop returns exactly the byte pattern's reference scan |
| ScanPatterns.ScanBufferMaskedSimd | libkrebs/src/pattern_scan/simd32_pattern.rs:142-173 | The masked vector loop returns exactly the byte-pattern matches with 32 bytes of room before the buffer's end, with the true bytes as values |
| ScanPatterns.ScanBufferPlainSimd | libkrebs/src/pattern_scan/simd32_pattern.rs:142-173 | The unmasked vector loop does the same |
| ScanPatterns.ScanBuffer | libkrebs/src/pattern_scan/mod.rs:130-186 | Whichever implementation is scanned with, the matches are those of its byte pattern |
| NaiveScan.HitsExact | libkrebs/src/pattern_scan/mod.rs:160-186 | The naive scan contains a match iff its address is an aligned candidate with known room and its bytes match and are the value |
| NaiveScan.HitsAscending | libkrebs/src/pattern_scan/mod.rs:160-186 | The naive scan lists each match once, in address order |
| NaiveScan.HitsSplit | libkrebs/src/mem/buffer.rs:268-295 | Neighbouring stretches of candidates add up with no gap and no duplicate |
| NaiveScan.BufferHitsAreHits | libkrebs/src/mem/buffer.rs:170-200 | Scanning a buffer finds what the naive scan finds at the addresses the buffer was filled from |
| ScanStates.NextChunk | libkrebs/src/mem/buffer.rs:363-399 | A step keeps the state valid and brings the end nearer, so the loop terminates |
| ScanStates.ChunksTile | libkrebs/src/mem/buffer.rs:347-399 | The chunks are consecutive, tile the range, and all but the last are exactly `read_size` long |
| ScanStates.ChunkCount | libkrebs/src/mem/buffer.rs:347-399 | There are max(1, ceil(size / read_size)) chunks |
| ScanStates.RunReadsChunks | libkrebs/src/mem/buffer.rs:347-399 | Whichever reads fail, the machine reads exactly the chunks in order, remembers in Middle/Last whether the read before failed, and is in Last exactly at the last of several chunks |
| ChunkedScan.AlignedPatternSize | libkrebs/src/mem/buffer.rs:404-409 | The padded size is the least multiple of the word size that holds the pattern, and the padding is the difference |
| ChunkedScan.ReadableChunks | libkrebs/src/mem/buffer.rs:140-168 | A byte is readable iff every chunk that holds it could be read |
| ChunkedScan.FailedChunkHasNoMatches | libkrebs/src/mem/buffer.rs:149-156 | Every candidate that a failed chunk decides touches it, so there are none to report |
| ChunkedScan.TailScanMatches | libkrebs/src/mem/buffer.rs:172-175 | A chunk read first or after a failed read, scanned in its tail only, yields exactly the candidates it decides |
| ChunkedScan.FullScanMatches | libkrebs/src/mem/buffer.rs:176-196 | A chunk read after a successful one, scanned from the head on, yields exactly the candidates up to its own last word |
| ChunkedScan.ChunkAddsMatches | libkrebs/src/mem/buffer.rs:268-276 | Each chunk before the last extends the result by exactly the matches it decides |
| ChunkedScan.LastChunkCompletes | libkrebs/src/mem/buffer.rs:183-197 | The last chunk completes the specified result, including the shifted addresses after a skipped chunk |
| ChunkedScan.ScanGoesOn | libkrebs/src/mem/buffer.rs:275-284 | The loop invariant (head holds the previous chunk's last bytes after a good read; found so far is the naive result up to here) survives every iteration |
| ChunkedScan.ScanEnds | libkrebs/src/mem/buffer.rs:275-295 | When the machine ends, what was collected is the specified result |
| ChunkedScan.FoundIsPrefix | libkrebs/src/mem/buffer.rs:292-294 | What was found before any later chunk is a prefix of the result |
| ChunkedScan.LazyIsPrefix | libkrebs/src/mem/buffer.rs:292-294 | A lazy result is a prefix of the full one, and empty only if that is |
| ChunkedScan.LazyStopsAtChunk | libkrebs/src/mem/buffer.rs:292-294 | A lazy scan returns all matches decided up to the first chunk that brings any, and none of a later one |
| ChunkedScan.LazyIsFull | libkrebs/src/mem/buffer.rs:292-294 | If no chunk before the last brings a match, a lazy scan returns what a full one does |
| ChunkedScan.StaleDoesNotShow | libkrebs/src/mem/buffer.rs:252-257 | For a range of at least one read the result is the same whatever the buffer held before, failed reads included |
| ChunkedScan.StaleDoesNotShowLazily | libkrebs/src/mem/buffer.rs:252-257 | The same for lazy scans |
| BorosBuffers.Boros.constructor | libkrebs/src/boros.rs:32-41 | A new buffer is all zero and has the requested head and tail |
| BorosBuffers.Boros.From | libkrebs/src/boros.rs:53-64 | A buffer made from a tail has a zero head |
| BorosBuffers.Boros.SwallowTail | libkrebs/src/boros.rs:107-116 | The head becomes the tail's last bytes, the tail stays, and a second swallow changes nothing |
| BorosBuffers.Boros.WriteTail | libkrebs/src/boros.rs:86-89 | Writing into the tail slice replaces its front and leaves the head |
| ScanBuffers.Buffer.constructor | libkrebs/src/mem/buffer.rs:127-138 | A new buffer has the reader, the read size and the initial 2-byte head and tail |
| ScanBuffers.Buffer.LoadChunk | libkrebs/src/mem/buffer.rs:140-168 | A successful read fills exactly the chunk's part of the tail; a failed one reports a skip |
| ScanBuffers.Buffer.ScanChunk | libkrebs/src/mem/buffer.rs:170-200 | Scans the slice and base address that the status selects |
| ScanBuffers.Buffer.ReadChunk | libkrebs/src/mem/buffer.rs:202-232 | A skipped chunk has no matches, a read one the matches of its slice |
| ScanBuffers.Buffer.FitHead | libkrebs/src/mem/buffer.rs:252-257 | The buffer is reallocated unless its total size fits; head and tail then have the right sizes iff it was not the initial one with just that total |
| ScanBuffers.Buffer.ScanChunks | libkrebs/src/mem/buffer.rs:268-295 | The loop over an in-place buffer returns the specified result; a lazy scan exactly what the chunks up to the first with matches decide |
| ScanBuffers.Buffer.FullScan | libkrebs/src/mem/buffer.rs:241-312 | For every pattern, range, reader and buffer state, lazily or not: the specified result of the range |
| ScanBuffers.Buffer.FindOne | libkrebs/src/mem/buffer.rs:314-325 | The first match of the full result, or none if there is none |
| ScanExactness.ChunkedScanExactIff | libkrebs/src/mem/buffer.rs:170-200 | The scan equals the naive scan for every memory and every stale buffer iff the guard holds: a short range has no window past its end, and the last chunk does not follow a failed one (or its head is empty) |
| ScanExactness.ExactWhenGuarded | libkrebs/src/mem/buffer.rs:241-312 | Under the guard the result is the naive list, restricted to windows that touch no failed chunk |
| ScanExactness.ShortRangeOverruns | libkrebs/src/mem/buffer.rs:172-172 | For a range of at most one read the naive matches come first, and every other match runs past the range's end |
| ScanExactness.ShortRangeIsInexact | libkrebs/src/mem/buffer.rs:172-172 | Whenever a window of the tail can run past a short range, some memory and stale tail give a wrong result |
| ScanExactness.SkippedBeforeLastIsInexact | libkrebs/src/mem/buffer.rs:183-189 | Whenever the last chunk follows a failed one and the head is not empty, a pattern at its start is reported at an address that was not read |
| ScanExactness.ShiftedResult | libkrebs/src/mem/buffer.rs:183-189 | What is then returned: the naive matches one for one, those of the last chunk lower by exactly the head's length |
| ScanExactness.PatternFitsIff | libkrebs/src/mem/buffer.rs:259-295 | The "pattern is larger than buffer" assertion can only fail on the last of several chunks, and exactly when that is too short |
| ScanExactness.ReadSizeDoesNotShow | libkrebs/src/mem/buffer.rs:241-312 | Chunked equals naive: with no failed read, aligned ends and at least one read, the result is the same for every read size |
| ScanExactness.NaiveSeesEverything | libkrebs/src/mem/buffer.rs:268-295 | With no failed read the naive scan sees the whole range however it is cut |
| ScanExactness.NaiveTouchesNoFailedChunk | libkrebs/src/mem/buffer.rs:268-290 | A reported window overlaps no chunk that could not be read |
| ScanExactness.FirstIsLeast | libkrebs/src/mem/buffer.rs:314-325 | The first match found is the least matching address |
| UnpaddedScans.UnpaddedExactIff | libkrebs/src/mem/buffer.rs:234-312 | For every memory and every stale buffer the scan finds exactly the matches of the pattern's own bytes iff padding fits: in a short range the tail and those bytes go equally far; in a longer one the guard holds and wherever they can be read the padded window can be too |
| UnpaddedScans.AllReadRoomIff | libkrebs/src/pattern_scan/simd32_pattern.rs:142-173 | With no failed read there is room everywhere iff the last aligned place for the pattern's own bytes is also the last for its padded window |
| UnpaddedScans.PaddingHidesMatch | libkrebs/src/pattern_scan/simd32_pattern.rs:142-173 | A concrete guarded scan of 64 readable bytes that misses a one-byte match at address 60 |
| Scanners.ThreadBuffer.Obtain | libkrebs/src/scanner/scanner.rs:138-142 | A thread's buffer is made once and then kept, still attached to the process it was made for |
| Scanners.ScanBlocks | libkrebs/src/scanner/scanner.rs:126-164 | For every block, whichever reads fail and whatever the buffer was used for: the result names the pattern and is the specified one for some stale tail; from one read on that of a new buffer; in a shorter block nothing after a failed read, else the naive matches first and then only some that run past its end; in a guarded block the naive matches; all of the process the buffer is attached to |
| ScanProcesses.ScansOwnProcessIff | libkrebs/src/scanner/scanner.rs:131-149 | A guarded scan through a buffer attached to one process answers for another, whatever both memories hold, iff they are the same process or there is nothing to tell them apart by |
| Scanners.ScansOwnIff | libkrebs/src/scanner/scanner.rs:131-149 | A guarded block with a readable window is answered for the scanner's own process iff the thread's buffer is new or was made for that process |
| Scanners.ScanTwoProcesses | libkrebs/src/scanner/scanner.rs:131-149 | Two processes scanned on one thread: the second scan reports a match that only the first process has |
| PatternStructs.OptimizeKeepsPattern | krebs/native/libkrebs_nif/src/pattern.rs:91-103 | The optimised pattern converts back to the same bytes, kept at the same positions |
| PatternStructs.OptimizeKeepsMeaning | krebs/native/libkrebs_nif/src/pattern.rs:91-103 | The optimised pattern matches a window iff the byte pattern matches its true bytes |
| PatternStructs.ConcatIsHomomorphism | krebs/native/libkrebs_nif/src/pattern.rs:115-119 | Concatenation through optimised form and back matches a window iff the parts match its two stretches, for every mix of kinds and masks |
| PatternStructs.StructDescribesPattern | krebs/native/libkrebs_nif/src/pattern.rs:37-58 | The bytes and mask shown to Elixir describe the pattern that is scanned for |
| PatternStructs.PatternTypeIs | krebs/native/libkrebs_nif/src/pattern.rs:91-103 | The kind shown is the kind scanned with, and which kind a length gets |
| Queries.TruncateSpans | krebs/lib/krebs/repo.ex:158-164 | Trimming keeps exactly the stretch from the first to the last 0xFF |
| Queries.QueryCompiles | krebs/lib/krebs/repo.ex:145-156 | What the compiled pattern, its mask and its offset are |
| Queries.CompilationPreservesMeaning | krebs/lib/krebs/repo.ex:145-164 | For every mask: the compiled pattern matches at `a` iff memory at `a - offset` holds what the mask keeps between its first and last 0xFF |
| Queries.CompilationExactIff | krebs/lib/krebs/repo.ex:158-164 | Trimming preserves meaning for every memory iff the mask keeps nothing outside its first and last 0xFF |
| Queries.HitsFindStructs | krebs/lib/krebs/repo.ex:52-82 | In any view of memory, matches moved back by the offset are exactly the places in bounds, aligned and with room, where memory holds what is scanned for |
| Queries.NaiveFindsStructs | krebs/lib/krebs/repo.ex:52-82 | For every mask: the naive matches moved back by the offset are exactly the structs scanned for whose window is aligned, known and in range |
| Queries.ScanAnswersQuery | krebs/lib/krebs/repo.ex:52-82 | For every mask: a guarded chunked scan, moved back by the offset, answers the query exactly, in ascending order |
| QueryStreams.StreamQuery | krebs/lib/krebs/repo.ex:52-82 | Compile, scan all blocks and correct the offsets: what scanning each block yields, in order, guarded or not; with every struct described in a guarded block or in one of at most one good read, and nothing else but from an unguarded block, there past its end if it is short; exactly the structs scanned for if all blocks are guarded; none iff nothing is significant |
| QueryStreams.StreamedHas | krebs/lib/krebs/repo.ex:52-82 | The same for whatever is streamed: what it must hold, and how anything else in it got there |
| QueryStreams.AnswersAreDescribed | krebs/lib/krebs/repo.ex:52-82 | The answers of the blocks contain exactly the structs scanned for that have an aligned, known window in one of them |
| Queries.StructAddressesAscend | krebs/lib/krebs/repo.ex:77-81 | Each block's answer ascends |
| QueryBlocks.FoundIff | krebs/lib/krebs/repo.ex:52-82 | In a guarded block, short or long, a struct that can be read is returned iff its window is aligned and scanned and memory holds what is scanned for |
| QueryBlocks.MisalignedNeverFound | libkrebs/src/pattern_scan/mod.rs:170-185 | Whichever reads fail, a query whose first significant byte is not aligned in the struct returns no aligned struct |
| QueryBlocks.QueryFindsIff | krebs/lib/krebs/repo.ex:52-164 | End to end, whichever reads fail in a guarded block: for every memory and stale buffer, the aligned structs that can be read and that a query returns are exactly those with all the values given, iff something is significant and, if a struct can be anywhere, every given byte is pinned, the first significant byte is aligned, and each struct's window is scanned |
| ReadableBlocks.BlockQueryExactIff | krebs/lib/krebs/repo.ex:52-164 | In a block that can be read throughout, even a short one, that is so iff something is significant and, if any struct fits, every given byte is pinned, the first significant byte is aligned, and the last struct's window is not cut off |
| QueryBlocks.StreamTells | krebs/lib/krebs/repo.ex:52-82 | Over any guarded blocks, where the comparison is exact (`QueryExactness.QueryExactIff`), what is streamed tells of every such struct with a scanned window whether it has all the values given |
| ReadableBlocks.PlainBlockQueryExactIff | krebs/lib/krebs/repo.ex:52-164 | The same without a mask of the schema's own, where any given field is significant |
| ReadableBlocks.UpperHalfNeverFound | krebs/lib/krebs/repo.ex:145-164 | A concrete query, for the upper of two 2-byte fields, that compares exactly and returns no aligned struct in any scan |
| MaskedBytes.RelevantAre | rekto/lib/rekto/schema/helpers.ex:393-406 | Names resolve iff they all are fields, each to its own field and value |
| MaskedBytes.MaskSizes | rekto/lib/rekto/schema/helpers.ex:408-425 | The mask is as long as the struct; a schema's own mask of another size is an error |
| MaskedBytes.NeededMaskAt | rekto/lib/rekto/schema/helpers.ex:408-425 | The mask keeps the named fields' bytes as far as the schema's own mask does, and no gap and no other field |
| MaskedBytes.PatchAllOkIff | rekto/lib/rekto/schema/helpers.ex:324-336 | Patching never fails for lack of room: it fails iff a value cannot be printed |
| MaskedBytes.MaskedBytesOkIff | rekto/lib/rekto/schema/helpers.ex:389-437 | Exactly when masked bytes exist, and that they are as long as the struct |
| MaskedBytes.MaskedBytesAt | rekto/lib/rekto/schema/helpers.ex:389-437 | Byte by byte: a given field carries its printed value, masked as the schema asks, whatever the order of the patches; every other byte is zero and not kept |
| MaskedBytes.MaskedBytesMatchIff | rekto/lib/rekto/schema/helpers.ex:389-437 | The bytes, under the mask or any part of it, match exactly the structs whose given fields hold the given values where they are compared |
| MaskedBytes.QueryFindsValuesIff | rekto/lib/rekto/schema/helpers.ex:389-437 | Through the codec, under the mask or any part of it: a struct matches iff what is compared of every given field parses to its value in normal form and its gaps and bools are what printing would put there |
| MaskedBytes.AnswerFindsValues | krebs/lib/krebs/repo.ex:52-82 | The addresses a query yields over a range are exactly the structs with an aligned, known window whose fields read as the values as far as they are scanned for |
| MaskedBytes.QueryHasPattern | krebs/lib/krebs/repo.ex:145-156 | Without a mask of the schema's own a query compiles iff it gives any field |
| QueryExactness.QueryExactIff | rekto/lib/rekto/schema/helpers.ex:389-437 | The masked comparison, at any one address and under the mask or any part of it, tells for every memory whether the struct there has the values given iff every byte of every given field is pinned: no gap compared, all data compared, bools false |
| QueryExactness.UnpinnedSpoils | rekto/lib/rekto/schema/helpers.ex:389-437 | One byte that is not pinned makes the comparison wrong for some memory, at every address |
| QueryExactness.GapHidesStruct | rekto/lib/rekto/schema/helpers.ex:427-434 | A concrete query on an embedded schema that misses a struct with the very value, because its inner gap does not hold 0xCC |
| HexPatterns.SplitJoin | krebs/lib/krebs/server.ex:69-75 | Splitting at whitespace undoes joining with blanks |
| HexPatterns.SplitFindsWords | krebs/lib/krebs/server.ex:69-70 | Splitting finds the words whatever blanks are between and around them |
| HexPatterns.HexDigitsParse | krebs/lib/krebs/server.ex:81-86 | One or two hex digits of either case parse to the byte with those digits, compared in full |
| HexPatterns.QuestionsParse | krebs/lib/krebs/server.ex:74-80 | `?` and `??` are ignored bytes, and `?` with another ASCII character is that character's code |
| HexPatterns.TokenIff | krebs/lib/krebs/server.ex:73-90 | Nothing else is a token, and the error is the token |
| HexPatterns.PatternTextParses | krebs/lib/krebs/server.ex:69-108 | Any text of words and blanks parses word by word, without a mask iff no word is a wildcard, or fails at the first word that is no token |
| HexPatterns.LayoutTextAt | krebs/lib/krebs/repo.ex:122-143 | The printed layout, character by character: two upper-case digits or question marks per byte, with single blanks between |
| HexPatterns.LayoutParses | krebs/lib/krebs/repo.ex:122-143 | Every printed token is a word that parses to its struct byte, whatever the mask |
| HexPatterns.HexRoundTrip | krebs/lib/krebs/server.ex:69-108 | Parsing a printed query returns the whole struct, ignored bytes zeroed, with no mask iff every byte is scanned for, whatever the mask |
| Queries.PlainMaskScanned | krebs/lib/krebs/repo.ex:145-164 | A mask of 0x00 and 0xFF bytes is scanned for as it is |
| SchemaLayouts.SchemaModule.constructor | rekto/lib/rekto/schema.ex:229-240 | A schema starts empty or with its parent's fields and size |
| SchemaLayouts.SchemaModule.Add | rekto/lib/rekto/schema.ex:504-594 | Declaring a field updates the attributes as the layout rule says; an error changes nothing |
| SchemaLayouts.AddFieldAcceptsIff | rekto/lib/rekto/schema.ex:504-564 | A field is accepted iff its name is new and usable and it starts where the fields so far have ended |
| SchemaLayouts.AddFieldErrorIs | rekto/lib/rekto/schema.ex:504-564 | Why a field is refused: its name, or the newest field, which holds the offset or lies behind it |
| SchemaLayouts.EmptyFieldIsInTheWay | rekto/lib/rekto/schema.ex:546-550 | Directly behind an empty field no field can be declared |
| SchemaLayouts.AddFieldKeepsLayout | rekto/lib/rekto/schema.ex:504-594 | Accepted fields stay in order, apart and distinct; the new one comes last, at the requested offset |
| SchemaDeclarations.DeclareKeepsValid | rekto/lib/rekto/schema.ex:504-594 | Every accepted run of declarations keeps the fields so far and lays the others out behind them |
| SchemaDeclarations.DeclareExactIff | rekto/lib/rekto/schema.ex:504-594 | Declarations are accepted iff their names are usable, new and distinct and no field starts before the one in front of it has ended; the fields are then where the declarations put them |
| SchemaDeclarations.PlacedAt | rekto/lib/rekto/schema.ex:504-594 | That is, each at its written offset, or else where the one in front ends |
| SchemaDeclarations.DeclaredIsValid | rekto/lib/rekto/schema.ex:219-353 | Whatever declarations are accepted, from the empty schema or on top of a valid parent, the result starts with the parent, and it is a type with a codec iff every declared name can be a variable |
| SchemaLayouts.GarbageAndFields | rekto/lib/rekto/schema.ex:364-390 | Collecting gaps and putting them in place yields the same fields and gaps |
| SchemaLayouts.FieldsAndGapsTile | rekto/lib/rekto/schema.ex:255-259 | Fields plus gaps, sorted by offset, tile `[0, size)` with each gap in front of the field that follows it |
| SchemaLayouts.InterleaveKeepsFields | rekto/lib/rekto/schema.ex:364-390 | Without the gaps, the pieces are the fields in order |
| SchemaLayouts.InterleaveExtends | rekto/lib/rekto/schema.ex:229-240 | A child's fields and gaps start with its parent's |
| SchemaCodecs.PrintPiecesAt | rekto/lib/rekto/schema/ast_gen.ex:31-41 | Every field's bytes are printed at its offset and everything between fields is 0xCC |
| SchemaCodecs.DestructField | rekto/lib/rekto/schema/ast_gen.ex:43-59 | A binary taken apart gives every field the bytes at its offset |
| SchemaRoundTrips.PrintSize | rekto/lib/rekto/serialization.ex:357-436 | A value is printed in as many bytes as its type has |
| SchemaBytes.UnsignedPrints | rekto/lib/rekto/serialization.ex:368-390 | An unsigned integer is printed iff it fits, byte by byte from the least significant on |
| SchemaBytes.SignedPrints | rekto/lib/rekto/serialization.ex:369-387 | A signed integer is printed iff it fits, in two's complement, byte by byte from the least significant on |
| SchemaBytes.IntegersParse | rekto/lib/rekto/serialization.ex:229-245 | Bytes of the right number parse as their weighted sum, negative from half the number of values on |
| SchemaBytes.BoolsPrintAndParse | rekto/lib/rekto/serialization.ex:227-227 | True is 1 and false 0, for numbers of a byte too; only 0 parses as false |
| SchemaBytes.BuffersPrintAndParse | rekto/lib/rekto/serialization.ex:258-272 | Bytes are printed as they are, short strings with zeros behind them; both parse with all bytes of their size |
| SchemaBytes.ArrayPrints | rekto/lib/rekto/serialization.ex:422-436 | An array is printed iff it has the number of elements its type asks for, at least one, and each can be printed, element `k` at `k` times its size |
| SchemaBytes.ArrayParses | rekto/lib/rekto/serialization.ex:274-316 | Element `k` is parsed from the bytes at `k` times its size |
| SchemaBytes.StructPrintsAt | rekto/lib/rekto/schema/ast_gen.ex:31-41 | A struct is printed with each field's own bytes at its offset and 0xCC everywhere else |
| SchemaExtensions.ParsedFieldIs | rekto/lib/rekto/schema/ast_gen.ex:43-75 | A parsed struct holds for each field what the bytes at its offset parse to |
| SchemaRoundTrips.PrintFieldsAre | rekto/lib/rekto/schema/ast_gen.ex:31-41 | Fields are printed iff each is there and can be printed, and then one by one |
| SchemaRoundTrips.StructPrintsIff | rekto/lib/rekto/schema/ast_gen.ex:77-98 | A struct is printed iff every field is there and can be printed and none is named `assoc_type` |
| SchemaRoundTrips.PrintedIsPrintable | rekto/lib/rekto/schema/ast_gen.ex:77-98 | Whatever is printed has no such field at any depth |
| SchemaRoundTrips.ParseFieldsAre | rekto/lib/rekto/schema/ast_gen.ex:61-75 | A struct is parsed iff every field is, and then field by field |
| SchemaRoundTrips.RoundTrip | rekto/lib/rekto/serialization.ex:226-316 | Whatever can be printed reads back as its normal form, through nested arrays and embedded structs |
| SchemaRoundTrips.RoundTripExactIff | rekto/lib/rekto/serialization.ex:340-436 | Parsing a printed value returns it iff it is canonical: real bools, full string buffers, exactly the schema's fields |
| SchemaRoundTrips.NormalPrintsSame | rekto/lib/rekto/serialization.ex:340-436 | A value and its normal form print the same |
| SchemaReprints.ParsePrint | rekto/lib/rekto/serialization.ex:226-316 | Every binary of a type's size parses; the value can be printed iff no struct of the type, at any depth, has a field named `assoc_type`; and printing changes only gaps (to 0xCC) and bools (to 0 or 1), byte by byte |
| SchemaReprints.NamedLikeMetadata | rekto/lib/rekto/schema/ast_gen.ex:77-98 | A concrete struct that parses from every binary and can never be printed back |
| SchemaReprints.ReprintExactIff | rekto/lib/rekto/serialization.ex:226-316 | Printing a parsed binary reproduces it iff it can be printed, gaps hold 0xCC and bools 0 or 1 |
| SchemaReprints.ParsedIsCanonical | rekto/lib/rekto/serialization.ex:226-316 | What a binary parses to is canonical |
| SchemaReprints.PrintedIff | rekto/lib/rekto/serialization.ex:340-436 | A binary is what a value prints to iff it parses to the value's normal form and would survive printing |
| SchemaReprints.ReadsIff | rekto/lib/rekto/serialization.ex:226-316 | A binary reads as a value iff, gaps aside and bools by their truth, it holds the bytes that the value prints to |
| SchemaExtensions.ChildPrintsAsParent | rekto/lib/rekto/schema.ex:229-240 | A child struct also prints as its parent, to the front of what it prints to itself |
| SchemaExtensions.ChildParsesAsParent | rekto/lib/rekto/schema.ex:229-240 | The front of a child's binary parses as the parent, to the same values |
| SchemaGenerators.NoDuplicatesIff | krebs/lib/krebs/schema_gen.ex:70-77 | Subtracting the distinct names leaves nothing iff all names are distinct |
| SchemaGenerators.DuplicatesAre | krebs/lib/krebs/schema_gen.ex:70-77 | The duplicates reported are the names that occur more than once, each once |
| SchemaGenerators.TrimIs | krebs/lib/krebs/schema_gen.ex:52-52 | Trimming takes the blanks at both ends and nothing else |
| SchemaGenerators.IdentifierIs | krebs/lib/krebs/schema_gen.ex:58-58 | Which names are identifiers, by the codes of their characters |
| SchemaGenerators.ErrorIff | krebs/lib/krebs/schema_gen.ex:40-94 | Each kind of error is reported exactly for what is wrong |
| SchemaGenerators.ValidIff | krebs/lib/krebs/schema_gen.ex:40-94 | A specification is valid iff it has fields with usable, distinct names and none starts before the one in front of it has ended |
| GeneratedSchemas.ValidNamesUsable | krebs/lib/krebs/schema_gen.ex:48-77 | Validation leaves only names that, once trimmed, are distinct identifiers a schema can declare |
| GeneratedSchemas.ReadNameIff | krebs/lib/krebs/schema_gen.ex:177-184 | A validated name is read back from its line iff no blank stands in front and no line break behind, and then trimmed |
| GeneratedSchemas.EmittedLinesReadIff | krebs/lib/krebs/schema_gen.ex:144-184 | The emitted lines are read back iff all names are readable |
| GeneratedSchemas.DeclareIff | krebs/lib/krebs/schema_gen.ex:144-175 | Declaring the emitted fields gives every field its requested offset iff the types' own sizes fit |
| GeneratedSchemas.CodecMadeIff | rekto/lib/rekto/schema/ast_gen.ex:43-75 | The codec of the emitted fields compiles iff each name can be a variable |
| GeneratedSchemas.GeneratedReproducesIff | krebs/lib/krebs/schema_gen.ex:104-154 | A generated schema compiles to its specification iff every name is readable as specified and can be a variable, and each type ends exactly where the next unwritten offset is expected, and no later than a written one |
| GeneratedSchemas.TypeSizesFitIff | krebs/lib/krebs/schema_gen.ex:79-94 | With the types' own sizes, that is the case iff validation finds no overlap |
| GeneratedSchemas.GeneratedReproduces | krebs/lib/krebs/schema_gen.ex:104-154 | A validated specification with names that are readable and can be variables, and the types' own positive sizes, compiles, and every field is at its requested offset |
| GeneratedSchemas.BlankInFrontIsUnreadable | krebs/lib/krebs/schema_gen.ex:48-68 | A name with a blank in front passes validation, and its line cannot be read |
| GeneratedSchemas.UnderscoreIsNoVariable | krebs/lib/krebs/schema_gen.ex:48-68 | A field named `_` passes validation and is declared, and its schema does not compile |
| GeneratedSchemas.WrongSizeMovesField | krebs/lib/krebs/schema_gen.ex:156-165 | A size that is not the type's own passes validation and moves the next field |
| Regions.MergeBlocks | libkrebs/src/mem/region.rs:97-123 | The merge loop computes the specified output |
| Regions.MergeRanges | libkrebs/src/mem/reader.rs:140-163 | Merging address ranges is merging regions of one class |
| Regions.MergeCovers | libkrebs/src/mem/region.rs:97-123 | For every input, each class covers the same addresses before and after |
| Regions.MergeKeepsBases | libkrebs/src/mem/region.rs:109-118 | Each merged region has the base and class of a block that starts where it starts |
| Regions.MergeShape | libkrebs/src/mem/region.rs:97-123 | The output is sorted by start, and of two regions of a class either they do not touch or the later lies strictly inside |
| Regions.MergeIdempotent | libkrebs/src/mem/region.rs:97-123 | For every input, merging again changes nothing |
| Regions.MergeSeparatesIff | libkrebs/src/mem/region.rs:89-123 | Same-class outputs never touch iff no block nests in what the earlier blocks of its class cover |
| Regions.NestedBlocksStayApart | libkrebs/src/mem/region.rs:97-123 | Of two blocks of one class, [0,100) and [10,20), both are kept |
| Regions.TouchingRangesOverlap | libkrebs/src/mem/reader.rs:106-110 | Ranges that only touch share no address, and their sizes add up to the hull, but they count as overlapping |
| Regions.UnmergeableApart | libkrebs/src/mem/reader.rs:106-110 | For ranges in start order, `overlaps` is false iff they do not touch or the later one lies strictly inside |
| Regions.OverlapsIff | libkrebs/src/mem/reader.rs:106-110 | In any order, ranges overlap iff they touch and the first does not lie strictly inside the other |
| Sorting.SortIsStable | libkrebs/src/mem/region.rs:99-100 | Sorting keeps the order of elements with equal keys |
| ScanSets.RereadAgreesWithScan | krebs/lib/krebs/scanner/scan_set.ex:206-214 | A next scan's comparison agrees with the scan pattern's |
| ScanSets.RereadComparesBits | krebs/lib/krebs/scanner/scan_set.ex:204-214 | For any mask, the comparison is that of the kept bits |
| ScanSets.ScanNarrows | krebs/lib/krebs/scanner/scan_set.ex:102-161 | With none in progress a scan is always carried out: whatever is called before its last message, nobody who waits is answered; then all are, and the set is what was found, of the set before if there was one, or that set on an error |
| ScanSets.NextScanNarrows | krebs/lib/krebs/scanner/scan_set.ex:163-192 | From a committed set a next scan is always carried out, and leaves exactly the addresses that were in the set, can be read and match |
| ScanSets.OtherCalls | krebs/lib/krebs/scanner/scan_set.ex:136-204 | Refused scans change nothing, `await` waits or is answered at once, a reset clears the set |
| ScanSets.EveryAwaitAnsweredAtMostOnce | krebs/lib/krebs/scanner/scan_set.ex:136-155 | In every run, waiters exist only while scanning, and every `await` is answered once, still waits, or was dropped by a reset |
| ScanSets.CalmRunsKeepInv | krebs/lib/krebs/scanner/scan_set.ex:102-204 | In every run without a reset while scanning: at most one job, `current` is the intersection of all commits since the last reset, nobody is dropped |
| ScanSets.StepKeepsInv | krebs/lib/krebs/scanner/scan_set.ex:102-204 | Every handler keeps that invariant |
| ScanSets.ErrorLeavesCurrent | krebs/lib/krebs/scanner/scan_set.ex:123-127 | A failed scan leaves the set as it was and answers everyone waiting |
| ScanSets.ResetSafeIff | krebs/lib/krebs/scanner/scan_set.ex:152-155 | After a reset every calm continuation keeps `current` the intersection of the commits and drops nobody iff no scan was in progress |
| ScanSets.ResetWhileScanningSpoils | krebs/lib/krebs/scanner/scan_set.ex:102-155 | Whatever job was going on at the reset, some calm continuation commits a wrong set |
| ScanSets.ResetDuringScanMixesMatches | krebs/lib/krebs/scanner/scan_set.ex:152-155 | A concrete run in which a reset during a scan lets the first job's matches into the second one's set |
| ErlChannels.ClosedChannelDelivered | krebs/native/libkrebs_nif/src/erl_channel.rs:56-116 | For every interleaving: once closing has returned, every value was forwarded exactly once, in queue order and each sender's own order, and the count is the number sent |
| ErlChannels.SendsNeverFail | krebs/native/libkrebs_nif/src/erl_channel.rs:56-68 | The forwarding thread outlives the senders |
| ErlChannels.StepKeepsInv | krebs/native/libkrebs_nif/src/erl_channel.rs:56-116 | Every step of a sender, the closer or the forwarding thread keeps the channel invariant |
| ErlChannels.NeverStuck | krebs/native/libkrebs_nif/src/erl_channel.rs:37-89 | Until closing has returned, some thread can act, whatever the capacity |
| ErlChannels.AnyOrderHappens | krebs/native/libkrebs_nif/src/erl_channel.rs:37-89 | Whatever the capacity, the senders' values can go through in every order |
| ErlChannels.SendsBlockWhenFull | krebs/native/libkrebs_nif/src/erl_channel.rs:37-45 | With nothing received, exactly as many sends go through as the channel has room for |
| ErlChannels.CloseTakesRoom | krebs/native/libkrebs_nif/src/erl_channel.rs:70-89 | Closing waits for room as sending does, but not until the values in front of it are forwarded |
| ErlChannels.RunsEnd | krebs/native/libkrebs_nif/src/erl_channel.rs:37-116 | Runs are bounded, and one that cannot go on has closed the channel |
| ErlChannels.Forward | krebs/native/libkrebs_nif/src/erl_channel.rs:91-116 | The receive loop forwards and counts exactly the messages in front of the first close |
| CppStrings.CheckBufferExact | libkrebs/src/cpp_std/gcc/string.rs:202-216 | A buffer is accepted iff it is a null-free payload and a terminator; otherwise which error it is |
| CppStrings.WordIs | libkrebs/src/util.rs:36-56 | A word of an object is the weighted sum of its eight bytes, the least significant first |
| GccStrings.ShortPatternMatches | libkrebs/src/cpp_std/gcc/string.rs:218-242 | The short pattern compares the length field, the payload and its terminator |
| GccStrings.FromUnkIs | libkrebs/src/cpp_std/gcc/string.rs:180-216 | Which 32 bytes are accepted as which string, field by field, and which error the others give |
| GccStrings.ShortPatternExactIff | libkrebs/src/cpp_std/gcc/string.rs:180-242 | The pattern matches exactly the objects accepted as that short string iff the string is neither empty nor has a null byte |
| GccStrings.LongPatternMatches | libkrebs/src/cpp_std/gcc/string.rs:180-242 | A long pattern matches the objects with its length; they are accepted iff pointer and capacity are sound |
| VcppStrings.AllocSizeLeast | libkrebs/src/cpp_std/vcpp/string.rs:292-305 | A long string gets the least table entry above its length, and none from 1,170,157 bytes on |
| VcppStrings.ShortPatternMatches | libkrebs/src/cpp_std/vcpp/string.rs:313-336 | The short pattern compares payload, terminator, length and the fixed allocation size |
| VcppStrings.FromUnkIs | libkrebs/src/cpp_std/vcpp/string.rs:208-285 | Which 32 bytes are accepted as which string, field by field, and which error the others give |
| VcppStrings.ShortPatternExactIff | libkrebs/src/cpp_std/vcpp/string.rs:208-336 | The pattern matches exactly the objects accepted as that short string iff the string is neither empty nor has a null byte |
| VcppStrings.LongPatternMatches | libkrebs/src/cpp_std/vcpp/string.rs:208-336 | A long pattern matches the objects with its length and least larger table entry; acceptance allows any table entry, so an object that matches and has a pointer is exactly an accepted one with that entry |
| VcppStrings.LongPatternMissesOthers | libkrebs/src/cpp_std/vcpp/string.rs:208-336 | Every long pattern misses an accepted string of its length in another allocation, a larger one where the table has one |
| Bytes.LittleEndianAt | libkrebs/src/util.rs:36-56 | The byte at `i` of a written integer is its digit of weight 256 to the power `i` |
| Bytes.LittleEndianSum | libkrebs/src/util.rs:36-56 | The integer read is the sum of the bytes times those weights |
| Bytes.LittleEndianRoundTrip | libkrebs/src/util.rs:36-56 | Reading the bytes of an integer returns it |
| Bytes.LittleEndianInverse | libkrebs/src/util.rs:36-56 | Writing the integer read from bytes returns them |
| Bytes.SignedRoundTrip | rekto/lib/rekto/serialization.ex:229-241 | Two's complement reads back, both ways |

## Left out

- ScanBuffers.Buffer.FullScan: requires that the buffer is not still in its initial 2+2 state while head and read size add up to 4; the code would keep it then and fail on the first slice. A read size of 0, which also passes the code's assertion, is excluded too (it would not advance), as is a pattern that trips the scanner's "larger than buffer" assertion.
- ScanBuffers.Buffer.FindOne: the same two exclusions as for `ScanBuffers.Buffer.FullScan`.
- UnpaddedScans.UnpaddedExactIff: a pattern of no bytes is taken to match where at least one byte can be read.
- QueryBlocks.QueryFindsIff: for blocks that are guarded if they take several reads; `ScanExactness.SkippedBeforeLastIsInexact` shows what happens otherwise.
- ScanBuffers.Buffer.LoadChunk: short reads are not modelled (the code asserts that they do not happen), nor is address overflow at the top of memory.
- BorosBuffers.Boros.SwallowTail: the copy is one parallel assignment; head and tail never overlap, because the head is no longer than the tail.
- WordPatterns.WordsRefineBytes: the word size is fixed at 8. The padding branch for lengths that are no multiple of it is left out: the constructor refuses them.
- Simd32Patterns.FromKeepsPattern: vectors are made from byte patterns only, which is how the NIF makes them; the conversion from an arbitrary pattern object is left out.
- Scanners.ScanBlocks: blocks are scanned one after the other on one thread; the parallel scheduling and the order of results across threads are left out, and so are timing and logging.
- QueryStreams.StreamQuery: the list of blocks is given, one thread scans them in order, and addresses come back at once instead of through the channel.
- SchemaCodecs.ToBytes: integers, bools, byte and string buffers, arrays and embedded schemas; floats, the scalar `:byte` (which decodes one bit), pointers, transformations, constraints, sanity checks and metadata are left out. `:word` is an unsigned integer of the configured width.
- SchemaRoundTrips.PrintSize: for the types of `SchemaCodecs.ToBytes`.
- SchemaRoundTrips.RoundTrip: for the types of `SchemaCodecs.ToBytes`.
- SchemaRoundTrips.RoundTripExactIff: for the types of `SchemaCodecs.ToBytes`.
- SchemaRoundTrips.NormalPrintsSame: for the types of `SchemaCodecs.ToBytes`.
- SchemaReprints.ParsePrint: for the types of `SchemaCodecs.ToBytes`.
- SchemaReprints.ReprintExactIff: for the types of `SchemaCodecs.ToBytes`.
- SchemaReprints.ParsedIsCanonical: for the types of `SchemaCodecs.ToBytes`.
- SchemaReprints.PrintedIff: for the types of `SchemaCodecs.ToBytes`.
- SchemaReprints.ReadsIff: for the types of `SchemaCodecs.ToBytes`.
- SchemaCodecs.FromBytes: element errors inside arrays are passed on as errors; the code wraps them in a success, but no modelled element type can fail once the sizes fit.
- SchemaLayouts.SchemaModule.Add: array counts are naturals; pointer options and constraints of a field are left out.
- MaskedBytes.QueryHasPattern: without a mask of the schema's own; with one, any significant byte makes a pattern (`Queries.PatternIffSignificant`).
- MaskedBytes.ToMaskedBytes: a schema's own mask is a parameter, and pattern inference, which adds further values before, is left out.
- SchemaGenerators.Generate: type strings are already types, constraints are dropped, the module name is not checked, and blanks are ASCII. Of the emitted text only the name is read back as text, from its colon to its comma.
- HexPatterns.ParseHexPattern: whitespace is ASCII (`Texts.IsSpace`).
- Regions.MergeBlocks: memory types and permissions are opaque bytes that are only compared; `chunk_by` is left out as an easy member.
- ScanSets.Step: what is replied is not modelled beyond who is answered; a scanner that dies without a final message leaves its callers waiting.
- ErlChannels.Step: a send and its enqueueing are one step, and the recipient process is taken to be alive.
- CppStrings.CheckBuffer: reading a long string's characters through its pointer is left out.
- Process attachment, platform calls, the user interface, the tool server, the constraint evaluator, caches, registries and display formatting.
