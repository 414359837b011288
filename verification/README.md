# Verified model of the ForensIQ decoders

ForensIQ reads Windows evidence with decoders written from scratch in Go. This project models the ones whose
correctness is not visible from their code and proves what each is for:

- the LZXPRESS Huffman decompressor of prefetch files: its lazy bit reader stays in step with the eager reference
  reader of section 2.2.4 of MS-XCA, its canonical codes decode, its output is the LZ77 expansion of the tokens;
- the translation of SIGMA conditions to SQL text, whose meaning is what SQL's precedence makes of the text;
- x86-64 four-level paging (section 4.5 of the Intel SDM, volume 3A) over a memory dump stored as packed runs;
- NTFS content: mapping pairs, fixups, segmented run lists, the two run readers, compression units with their
  cache, and LZNT1 (section 2.5 of MS-XCA);
- caches and overlays that must be invisible: the EWF chunk ring, the SQLite write-ahead log, registry log replay;
- walks over page graphs: the ESE tree with its visited set, the SQLite table tree;
- SQLite varints and records (section 2.1 of the SQLite database file format);
- the orchestrator's goroutines, nested wait groups, bounded channel, closer and drain loop, as a state machine.

Run `dafny verify dfyconfig.toml`.

## How to read it

Each part has a specification module (functions, and lemmas about them) and, where the Go code works by steps, a
module with classes and methods. A method's postcondition equates its result or new state with the specification
function; the lemmas then say what that function means. The two sides meet in these modules:

| part | specification and theorems | loops and objects |
|---|---|---|
| bit streams, codes, LZXPRESS | `XpressStream`, `CanonicalCodes`, `HuffTrie`, `Lz77`, `XpressTokens`, `XpressDecompress`, `XpressHang`, `XpressEncoder` | `XpressStream.BitStream`, `TrieBuilder`, `XpressDecoder` |
| SIGMA to SQL | `SigmaSql`, `SigmaCondition`, `SigmaMeaning`, `SigmaExact`, `SigmaWritten` | `SigmaTranslator` |
| memory dumps | `PhysicalDump`, `Paging`, `PageTables` | the methods of the same modules |
| NTFS | `NtfsRuns`, `NtfsStreams`, `NtfsCompressed`, `NtfsFixup`, `NtfsSegments`, `NtfsWritten`, `Lznt1` | `NtfsCompressedReader`, `Lznt1Decoder`, the methods of the others |
| ESE | `EsePages`, `EseLayout` | `EseWalker` |
| EWF, registry logs | `EwfDisk`, `EwfLayout`, `ByteWrites`, `RegfLog`, `RegfLayout` | the methods of the same modules |
| SQLite | `SqliteVarint`, `SqliteRecord`, `SqliteWal`, `SqliteLog`, `SqliteScan`, `SqlitePages`, `SqliteTree`, `SqliteFile` | `SqliteRecordReader`, `SqliteScanner`, `SqliteWal.SqliteDb` |
| orchestrator | `Orchestrator` | `Orchestrator.RunResult` |

What a decoder reads is pinned from the other side as well: an encoder or a layout written down from the format,
byte by byte and without the functions that read it, and a theorem that the decoder reads back what it lays out
(`XpressEncoder`, `SigmaWritten`, `PageTables`, `NtfsWritten`, `EseLayout`, `EwfLayout`, `RegfLayout`, `SqliteLog`,
`SqlitePages`, and the encoders in `Lznt1`, `NtfsRuns`, `SqliteVarint`, `SqliteRecord`).

`Bits` holds bytes, powers of two, bit strings and 64-bit unsigned operations. Go's uint64 and int64 wrap-around is
written out (`U64`, `Wrap`, `Int64`) where the code relies on it.

## What turned out not to hold

These are results about the code as it is, each with its exact condition.

- A long match with too few whole words left for its offset bits makes the refill loop
  (`internal/parsers/prefetch/xpress_huffman.go:99-101`) spin for ever: `XpressHang.HangsIffStarved` says exactly for
  which streams, `XpressDecompress.SomeSourceHangs` gives one of 257 bytes, and `XpressHang.HangNeedsLongSymbol` says
  that none does whose tables use no symbol of a long match. `Hang` is an outcome of the model.
- `buildSelectionSQL` prints a list of maps as a bare OR list, and `and` around it binds only its nearest part; so does
  `1 of`. `SigmaMeaning.ConditionReads` says what SQL makes of every condition. `SigmaExact.SqlAgreesIffGuarded`: when
  nothing falls back to TRUE, no selection is named twice and their parts vary freely, SQL agrees with the condition
  under every assignment exactly when no such list is an operand of `and`, at any depth; `DistinctAtomsAreFree` says
  when parts vary freely. `ListUnderAndWithItself` shows that a selection named twice can hide the mistake.
- A raw LZNT1 chunk of one byte has size field 0, so it ends the stream: a stream of fitting chunks is read back exactly
  when it has none (`Lznt1.RoundTripIff`).
- `maxLocal` (`internal/parsers/browser/sqlite.go:129-131`) is the bound of index pages, not of table leaves: scans hand
  on the records of a length as they were written, in every opened file, exactly when that bound does not matter to the
  length (`SqliteFile.RowsReadBackIff`). `TornExample` is a file with a record of 2000 bytes in one page of 4096, whose
  blob of 1997 bytes comes back with 999.
- A SQLite scan follows child links without remembering where it was: it returns without an error exactly when no page
  it reaches is missing, none holds a cell that stops the program, and no link leads back (`SqliteTree.ScanReturnsIff`).
  `SqliteFile.OwnChildNeverReturns` gives a file that opens and on which even the scan of the schema recurses for ever.
  The ESE walk has a visited set and always ends.
- Pages that lie between the old end of a SQLite file and a new page without a frame of their own are missing through
  the overlay and present in the patched file. Pages and scans agree exactly when there is no such page
  (`SqliteScan.OverlayIsPatchedSource`, `SqliteTree.ScansAgreeIff`); `SqliteFile.GapExample` is a log that leaves one.
- EWF cache keys are int32, so chunks 2^32 apart share one: the cache is invisible in every history of reads exactly when
  chunks that share a key decode alike (`EwfDisk.RingIsInvisibleIff`), which holds up to 2^32 chunks
  (`SmallImagesTellApart`) and fails on a disk of one more (`OneTooManyIsVisible`).
- A sparse run of length 0 inside a compression unit is taken for a hole, so an uncompressed unit goes to the LZNT1
  decoder: `NtfsCompressed.GatherIsWindow` says exactly when, and in `EmptyHoleLosesUnit` a unit of 16 stored clusters
  loads as nothing.
- A length field of 2^63 or more makes a run that steps back. The stream reader passes over it; loading a compression
  unit stops the program exactly when such a run is stored and steps back inside the unit: `NtfsCompressed.HaltsIff`.

Where comment and code differ the model follows the code: `applyLog` uses a 40-byte entry header where its comment
says 92; `ReadPhys` returns the present prefix where its comment says nil on any failure.

## Model

| member | source | states |
|---|---|---|
| XpressStream.BitStream.Push | internal/parsers/prefetch/xpress_huffman.go:261-268 | or-ing a word below the loaded bits appends its bits to the queue the accumulator stands for, with nothing overlapping or shifted out |
| XpressStream.BitStream.Drop | internal/parsers/prefetch/xpress_huffman.go:274-275 | shifting left by n removes exactly the first n bits of the queue |
| XpressStream.BitStream.Peek | internal/parsers/prefetch/xpress_huffman.go:102 | the top n bits of the accumulator are the number the first n queued bits denote |
| XpressStream.BitStream.LoadWord | internal/parsers/prefetch/xpress_huffman.go:282-289 | loads one 16-bit word exactly when two bytes remain |
| XpressStream.BitStream.ReadBits | internal/parsers/prefetch/xpress_huffman.go:255-277 | refills as needed, at the very end with a lone byte, and returns the next n bits; the error case leaves the position at the end of the source |
| CanonicalCodes.FirstCodeIsKraftSum | internal/parsers/prefetch/xpress_huffman.go:199-204 | the running code number of each length is the scaled Kraft sum of the shorter codes |
| CanonicalCodes.CodesFitIffKraft | internal/parsers/prefetch/xpress_huffman.go:193-213 | all code numbers fit their lengths exactly when the table satisfies Kraft's inequality |
| CanonicalCodes.CodeFits | internal/parsers/prefetch/xpress_huffman.go:199-213 | under Kraft's inequality the code number of every used symbol fits its length |
| CanonicalCodes.KraftIsPrefixFree | internal/parsers/prefetch/xpress_huffman.go:193-224 | under Kraft's inequality no symbol's path is a prefix of another's |
| CanonicalCodes.FirstCodeBound | internal/parsers/prefetch/xpress_huffman.go:199-204 | with lengths up to 15 over at most 512 symbols the code numbers stay far inside uint32 |
| CanonicalCodes.CodesAreSuccessive | internal/parsers/prefetch/xpress_huffman.go:193-213 | with symbols ordered by length and then by number, the next code is one more with zeros appended up to its length |
| CanonicalCodes.FirstCodeIsZero | internal/parsers/prefetch/xpress_huffman.go:193-213 | the first code in that order is all zeros |
| HuffTrie.InsertHolds | internal/parsers/prefetch/xpress_huffman.go:207-224 | inserting the next symbol keeps: every node is on the path of an inserted symbol, and each such path ends at its symbol with no symbol before it |
| HuffTrie.TrieOfHolds | internal/parsers/prefetch/xpress_huffman.go:206-225 | so it holds for the trie of every prefix-free table |
| HuffTrie.NoLeafOnPath | internal/parsers/prefetch/xpress_huffman.go:215-223 | no leaf ever becomes internal and no symbol is overwritten |
| HuffTrie.WalkAlongPath | internal/parsers/prefetch/xpress_huffman.go:228-242 | from any step of a path with the rest of the path next in the stream, the walk ends at its symbol and takes exactly the rest |
| HuffTrie.DecodesCodeword | internal/parsers/prefetch/xpress_huffman.go:182-242 | decoding a used symbol's codeword, whatever bits follow, returns the symbol and consumes exactly its length |
| TrieBuilder.StepDown | internal/parsers/prefetch/xpress_huffman.go:216-222 | the linked nodes represent the trie with one more node on the path, linked in fresh only where there was none |
| TrieBuilder.InsertCode | internal/parsers/prefetch/xpress_huffman.go:215-223 | inserting a code in place gives linked nodes that represent the trie with that path and symbol |
| TrieBuilder.CountLengths | internal/parsers/prefetch/xpress_huffman.go:193-198 | the counter array holds how many symbols have each nonzero length |
| TrieBuilder.NumberLengths | internal/parsers/prefetch/xpress_huffman.go:199-204 | the uint32 loop computes the first code number of every length |
| TrieBuilder.TakeCode | internal/parsers/prefetch/xpress_huffman.go:212-213 | hands out a symbol's canonical code number and advances its length only |
| TrieBuilder.BuildHuffTrie | internal/parsers/prefetch/xpress_huffman.go:182-226 | the linked nodes represent the trie of the table, for every table of nibble lengths |
| TrieBuilder.DecodeHuff | internal/parsers/prefetch/xpress_huffman.go:228-242 | walking the linked nodes returns what the walk of the represented trie returns, from the same stream position |
| Lz77.CopiedAt | internal/parsers/prefetch/xpress_huffman.go:132-148 | every copied byte is the output byte `offset` places before it, also where this copy wrote it |
| Lz77.OverlapRepeats | internal/parsers/prefetch/xpress_huffman.go:132-148 | a match longer than its offset repeats the last `offset` bytes |
| Lz77.EmitWithinIsPrefix | internal/parsers/prefetch/xpress_huffman.go:145-151 | stopping a copy at the limit keeps a prefix of the token's expansion |
| XpressTokens.TakeKeepsStep | internal/parsers/prefetch/xpress_huffman.go:255-277 | taking 1 to 15 bits yields the reference's bits and keeps the lag: no word with 16 bits or more loaded, exactly one word otherwise |
| XpressTokens.SymbolInStep | internal/parsers/prefetch/xpress_huffman.go:64-67 | decoding a symbol keeps the readers in step |
| XpressTokens.MatchInStep | internal/parsers/prefetch/xpress_huffman.go:78-130 | the operands of a match, the interleaved length bytes included, are read from the reference's position |
| XpressTokens.TokenInStep | internal/parsers/prefetch/xpress_huffman.go:64-130 | every token the reference decodes the lazy reader decodes too, and stays in step |
| XpressTokens.BlockEndsAligned | internal/parsers/prefetch/xpress_huffman.go:157-165 | the closing load puts the lazy reader exactly where the reference is, so the next table is read from the same byte |
| XpressDecompress.BlockInStep | internal/parsers/prefetch/xpress_huffman.go:54-164 | a block's output is the LZ77 expansion of the reference's tokens over the whole history |
| XpressDecompress.DecompressesReferenceTokens | internal/parsers/prefetch/xpress_huffman.go:33-172 | for every stream the reference decodes, across all blocks, the output is the expansion of its tokens and has the expected size |
| XpressDecompress.OutputBound | internal/parsers/prefetch/xpress_huffman.go:33-172 | whatever the source, the output extends what was there and never exceeds the expected size |
| XpressEncoder.WordBitsAt | internal/parsers/prefetch/xpress_huffman.go:255-289 | bit j of a loaded word is bit 7 - j of its second byte for j below 8, and of its first byte after that |
| XpressEncoder.TokenReads | internal/parsers/prefetch/xpress_huffman.go:64-130 | a token written as codeword, length bytes and offset bits, in words written two ahead, is read back from its bytes |
| XpressEncoder.StreamReads | internal/parsers/prefetch/xpress_huffman.go:33-172 | the reference reads back the tokens of every stream the encoder writes, block by block |
| XpressEncoder.WrittenStreamDecompresses | internal/parsers/prefetch/xpress_huffman.go:33-172 | for all Kraft tables and fitting tokens, every written stream, down to its bytes, is decompressed to the expansion of its tokens |
| XpressHang.StepKeepsResult | internal/parsers/prefetch/xpress_huffman.go:38-165 | every step, a table read, a token decoded or a block left, keeps what decompression will return; a starved symbol means it never does |
| XpressHang.HangsIffStarved | internal/parsers/prefetch/xpress_huffman.go:33-172 | for every source and size, decompression never ends exactly when its steps lead to a long match with too few whole words left for its offset |
| XpressHang.LeavesAreUsed | internal/parsers/prefetch/xpress_huffman.go:206-225 | whatever the lengths, Kraft or not, a node of the trie holds no symbol or one that the table uses |
| XpressHang.HangNeedsLongSymbol | internal/parsers/prefetch/xpress_huffman.go:33-172 | a source on which it never ends holds a table that uses a symbol of a long match |
| XpressDecompress.HangsIff | internal/parsers/prefetch/xpress_huffman.go:92-101 | reading a match spins for ever exactly when it is long and the whole words left hold fewer bits than its offset needs |
| XpressDecompress.FirstMatchHangs | internal/parsers/prefetch/xpress_huffman.go:38-101 | decompression never ends when a block starts with the codeword of such a match |
| XpressDecompress.SomeSourceHangs | internal/parsers/prefetch/xpress_huffman.go:38-101 | a source of 257 bytes on which it never ends, for every expected size |
| XpressDecoder.FillWords | internal/parsers/prefetch/xpress_huffman.go:99-101 | loads words up to n bits, or reports that no further load can change anything |
| XpressDecoder.ReadLongMatch | internal/parsers/prefetch/xpress_huffman.go:92-130 | one byte, or 255 and a word, read between peeking and dropping the offset bits |
| XpressDecoder.ReadMatch | internal/parsers/prefetch/xpress_huffman.go:78-130 | both kinds of match read as the specification says, with the same next reader |
| XpressDecoder.CopyMatch | internal/parsers/prefetch/xpress_huffman.go:132-151 | the byte loop over both buffers writes the expansion of the match into the block buffer, cut at the limit, and changes nothing behind it |
| XpressDecoder.DecodeBlock | internal/parsers/prefetch/xpress_huffman.go:63-163 | the symbol loop with buffer and stream computes the block of the specification |
| XpressDecoder.ReadLengthTable | internal/parsers/prefetch/xpress_huffman.go:43-48 | 512 lengths, two to a byte, low nibble first |
| XpressDecoder.DecompressBlock | internal/parsers/prefetch/xpress_huffman.go:39-165 | one pass of the outer loop: table, trie, block, next source position |
| XpressDecoder.XpressHuffDecompress | internal/parsers/prefetch/xpress_huffman.go:33-172 | the whole loop computes the specified outcome; it comes to an end, because every pass drops at least 256 source bytes, unless a refill loop spins, which is an outcome of its own |
| SigmaSql.AndJoinReads | internal/sigma/convert.go:141 | operands joined by AND read back as their conjunction, in front of any text |
| SigmaSql.OrJoinReads | internal/sigma/convert.go:115 | operands joined by OR read back as their disjunction when no AND follows |
| SigmaSql.ParenReads | internal/sigma/convert.go:333 | a parenthesised OR list reads as one operand of NOT and AND |
| SigmaMeaning.SelectionReads | internal/sigma/convert.go:93-142 | a selection's fragment reads as: one of its maps holds, all conditions of a map together, TRUE without a map |
| SigmaMeaning.PatternReads | internal/sigma/convert.go:351-366 | `1 of` reads as any and `all of` as every matching selection, TRUE when none matches |
| SigmaMeaning.CombinedReads | internal/sigma/convert.go:303-307 | what SQL makes of two fragments around AND or OR, bare OR lists included |
| SigmaMeaning.ConditionReads | internal/sigma/convert.go:283-349 | for every token list and rule the emitted text is one SQL expression, with the value `ExprValues` gives |
| SigmaMeaning.ConditionMeansWhatItSays | internal/sigma/convert.go:283-373 | under every truth assignment SQL evaluates the text as the left-to-right condition, when no bare OR list of two or more parts is an operand of `and` |
| SigmaMeaning.AndReadingExact | internal/sigma/convert.go:303-304 | at one `and` the reading is the conjunction for all part values exactly when both operands have a single part |
| SigmaMeaning.AndOfSelections | internal/sigma/convert.go:289-311 | for two named selections under `and`: what SQL evaluates and what the condition means |
| SigmaMeaning.AndOfSelectionsExact | internal/sigma/convert.go:289-311 | for selections whose parts vary freely the two agree under every assignment exactly when both have a single part |
| SigmaMeaning.BareOrListUnderAnd | internal/sigma/convert.go:97-115 | a rule with a list of two maps and a filter: the text holds where the condition does not |
| SigmaMeaning.ListUnderAndWithItself | internal/sigma/convert.go:289-311 | a list under `and` with itself reads right, so dependence can hide the mistake |
| SigmaExact.TermAsTree | internal/sigma/convert.go:313-349 | a term's tree has its meaning, its parts and what SQL makes of them |
| SigmaExact.ExprAsTree | internal/sigma/convert.go:289-311 | so has an expression's, left to right |
| SigmaExact.Attain | internal/sigma/convert.go:289-373 | a condition whose parts vary freely can be made false with all parts false, or true with any one part true |
| SigmaExact.Misread | internal/sigma/convert.go:297-308 | with a bare OR list under `and` at any depth, values exist under which SQL's reading is not the condition's |
| SigmaExact.SqlAgreesIffGuarded | internal/sigma/convert.go:283-373 | for every token list in which nothing falls back to TRUE and no selection is named twice, over selections that vary freely: SQL agrees under every assignment exactly when no operand of `and`, at any depth, is a bare OR list of two or more parts |
| SigmaExact.DistinctAtomsAreFree | internal/sigma/convert.go:93-142 | selections of non-empty maps over distinct field conditions vary freely together |
| SigmaExact.FreeIsIndependent | internal/sigma/convert.go:93-142 | two selections that vary freely together are independent |
| SigmaWritten.PatternNames | internal/sigma/convert.go:351-361 | a pattern w or w* names the selections whose name is at least as long as w and agrees with it letter by letter up to ASCII case, in name order, each once |
| SigmaWritten.PatternSelections | internal/sigma/convert.go:351-361 | a selection is among those of a pattern exactly when some name that starts like it has it |
| SigmaWritten.ConditionTree | internal/sigma/convert.go:289-349 | a condition written with names, patterns, not, parentheses, and, or, its keywords in any case, is parsed as its tree up to its last token |
| SigmaWritten.WrittenConditionTranslates | internal/sigma/convert.go:283-373 | SQL evaluates the text of every written condition as what it says of its selections' fields, when no bare OR list is an operand of `and` |
| SigmaTranslator.BuildMapSql | internal/sigma/convert.go:122-142 | the loop emits all conditions joined by AND, TRUE for an empty map |
| SigmaTranslator.BuildSelectionSql | internal/sigma/convert.go:93-119 | the loop emits each map in parentheses joined by OR, skips keywords, TRUE without a map |
| SigmaTranslator.ExpandPattern | internal/sigma/convert.go:351-366 | the loop over names emits the matching fragments in parentheses, joined by the operator |
| SigmaTranslator.ParseCondExpr | internal/sigma/convert.go:289-311 | the loop over `left` and `pos` emits the specified parts and stops at the same token |
| SigmaTranslator.ParseCondTerm | internal/sigma/convert.go:313-349 | each kind of term, its fallbacks and where it ends |
| SigmaTranslator.ConditionToSql | internal/sigma/convert.go:283-287 | the emitted text is the specified one |
| PhysicalDump.BuildRuns | internal/parsers/memparse/dump.go:122-143 | the loop with a running file cursor builds the packed table, empty runs skipped, in uint64 arithmetic |
| PhysicalDump.RunsArePacked | internal/parsers/memparse/dump.go:122-143 | every run starts where the one before it ends, the first right behind the header |
| PhysicalDump.OwnerIsFirst | internal/parsers/memparse/reader.go:9-19 | with disjoint runs the run found for a page is the one that holds it |
| PhysicalDump.LinearInRun | internal/parsers/memparse/reader.go:12-16 | inside a run the file offset moves with the address |
| PhysicalDump.PhysToFileInjective | internal/parsers/memparse/reader.go:9-19 | for page-disjoint runs built from a header, equal file offsets mean equal addresses |
| PhysicalDump.ReadPhys | internal/parsers/memparse/reader.go:25-80 | the chunk loop returns the chunked reading, for any table, address and length, capped at 16 MB |
| PhysicalDump.ReadChunksIsPrefix | internal/parsers/memparse/reader.go:35-75 | reading chunk by chunk is reading byte by byte, across runs |
| PhysicalDump.PrefixMeaning | internal/parsers/memparse/reader.go:21-24 | a byte-wise prefix holds the byte of every address it covers and ends early only at the first absent one |
| PhysicalDump.ReadPhysReadsPrefix | internal/parsers/memparse/reader.go:21-80 | ReadPhys returns the longest present prefix of the requested range, over several runs too |
| PhysicalDump.StoredByteReadBack | internal/parsers/memparse/dump.go:90-153 | in a dump with 0x2000 bytes of header and its runs' pages one behind the other, every byte of every page is found at its physical address |
| PhysicalDump.NothingElseStored | internal/parsers/memparse/dump.go:90-153 | and no other address holds a byte |
| Paging.FrameBits | internal/parsers/memparse/paging.go:36-55 | the masked frame is aligned to its page size and lies below 2^52, so or-ing an offset adds it |
| Paging.TranslationIsLinear | internal/parsers/memparse/paging.go:10-60 | translating va + k is translating va plus k inside a 4 KB page, whether 4 KB, 2 MB or 1 GB pages map it |
| Paging.PageChunk | internal/parsers/memparse/memparse.go:52-61 | inside a page the virtual bytes are the physical bytes at the translation |
| Paging.VRead | internal/parsers/memparse/memparse.go:43-76 | the loop over page chunks, with its early ends and the wrap of the last page, returns the chunked virtual reading |
| Paging.VReadIsPrefix | internal/parsers/memparse/memparse.go:47-71 | the chunked virtual reading is the byte-wise one |
| Paging.VReadTranslatesEveryByte | internal/parsers/memparse/memparse.go:43-76 | byte k is the physical byte at the translation of va + k, and the result is short only where translation or presence first fails |
| PageTables.MapsFourKilobytes | internal/parsers/memparse/paging.go:10-59 | four tables laid out in physical bytes translate every address with their indices to its frame and offset |
| PageTables.MapsTwoMegabytes | internal/parsers/memparse/paging.go:10-52 | so do three tables with the page-size bit in the third, for every offset in the 2 MB page |
| PageTables.MapsGigabyte | internal/parsers/memparse/paging.go:10-43 | and two with the bit in the second, for every offset in the 1 GB page |
| PageTables.UnmappedIsNone | internal/parsers/memparse/paging.go:10-59 | an entry on the way that is not present, or not in the dump, gives no translation |
| NtfsRuns.ReadUnsigned | internal/parsers/ntfs/ntfs.go:825-831 | the shift loop gives the little-endian number as int64 |
| NtfsRuns.SignExtends | internal/parsers/ntfs/ntfs.go:841-844 | shifting up and arithmetically down again is two's-complement sign extension from the field's width |
| NtfsRuns.ReadSigned | internal/parsers/ntfs/ntfs.go:833-845 | the shift loop and sign extension give the signed number |
| NtfsRuns.DecodeRuns | internal/parsers/ntfs/ntfs.go:788-823 | the cursor loop decodes the pairs up to a zero byte or a pair that is cut off, sparse runs leaving the base unchanged |
| NtfsRuns.RoundTrip | internal/parsers/ntfs/ntfs.go:786-823 | decoding inverts encoding for all run lists in any wide enough fields, with or without a terminator |
| NtfsRuns.TruncatedIsPrefix | internal/parsers/ntfs/ntfs.go:791-801 | a list cut off anywhere decodes to a prefix of its runs |
| NtfsRuns.EightBytesSuffice | internal/parsers/ntfs/ntfs.go:797-812 | eight bytes hold every length below 2^63 and every delta |
| NtfsFixup.ApplyFixup | internal/parsers/ntfs/ntfs.go:848-871 | the loop, working in the record it reads from, leaves the specified record; an unusable array is refused, and sectors of fewer than two bytes stop the program when there is one to fix |
| NtfsFixup.EndsAreFixed | internal/parsers/ntfs/ntfs.go:858-869 | the end of a sector takes its replacement exactly when it carries the sequence number |
| NtfsFixup.OthersStay | internal/parsers/ntfs/ntfs.go:858-869 | every byte outside the protected sector ends stays as it is |
| NtfsFixup.FixupUndoesProtection | internal/parsers/ntfs/ntfs.go:847-871 | fixing a record whose sector ends were moved into the array gives the record back, everywhere outside the array |
| NtfsFixup.ProtectedRecordReadBack | internal/parsers/ntfs/ntfs.go:847-871 | a protected record whose header names the array at 4 and its length at 6, low bytes first, is given back everywhere outside the array |
| NtfsSegments.SortSegments | internal/parsers/ntfs/ntfs.go:1188-1192 | the swapping loops leave the array sorted stably by first cluster |
| NtfsSegments.SortedOrdered | internal/parsers/ntfs/ntfs.go:1188-1192 | the result is in order and a permutation of the input |
| NtfsSegments.JoinSegments | internal/parsers/ntfs/ntfs.go:1188-1208 | joins the sorted segments' runs and takes the stated size, or the allocated one when none is stated |
| NtfsSegments.JoinedInFileOrder | internal/parsers/ntfs/ntfs.go:1133-1208 | however the attribute list orders the segments of a file, the runs are joined in file order |
| NtfsStreams.ReadRuns | internal/parsers/ntfs/ntfs.go:379-411 | filling the zeroed buffer run by run gives the specified bytes; no size, oversize and a run that starts or ends before it can are reported |
| NtfsStreams.FilledAtIsFilled | internal/parsers/ntfs/ntfs.go:388-410 | with lengths that are not negative the buffer is filled run after run, short reads leaving zeros |
| NtfsStreams.FilledIsContent | internal/parsers/ntfs/ntfs.go:379-411 | when the runs cover the size the buffer is the file's clusters in order, holes as zeros |
| NtfsStreams.RunStreamReader.Read | internal/parsers/ntfs/ntfs.go:984-1001 | one read fills the buffer's front, advances the position by what it delivered and reports EOF as specified |
| NtfsStreams.RunStreamReader.ReadChunk | internal/parsers/ntfs/ntfs.go:1003-1025 | reads only inside the run that holds the offset, for runs of any lengths, those that step back included |
| NtfsStreams.ChunkIsContent | internal/parsers/ntfs/ntfs.go:1003-1025 | before the end a read delivers at least one byte, the next ones of the file |
| NtfsStreams.StreamDeliversContent | internal/parsers/ntfs/ntfs.go:984-1025 | any sequence of reads delivers the content from where it stood; every read with room makes progress until the end and reports EOF exactly there |
| NtfsStreams.StreamEqualsWholeFile | internal/parsers/ntfs/ntfs.go:379-411 | the stream read to its end and the whole-file reader give the same bytes |
| NtfsWritten.FileReadBack | internal/parsers/ntfs/ntfs.go:379-411 | a file whose clusters lie where its runs say, holes for zeros, is what both readers deliver, up to its size |
| NtfsWritten.PackedReadBack | internal/parsers/ntfs/compressed.go:91-100 | what a unit gathers is what its clusters hold on the volume |
| NtfsCompressed.GatherIsWindow | internal/parsers/ntfs/compressed.go:66-105 | loading gathers exactly the clusters of the unit's window that are not holes, in order, cut where the volume ends, and sees a hole exactly when the window has one or a sparse run of length 0 starts inside it |
| NtfsCompressed.HaltsIff | internal/parsers/ntfs/compressed.go:73-97 | it stops the program exactly when a stored run of negative length steps back inside the window before a run behind it is met |
| NtfsCompressed.EmptyHoleLosesUnit | internal/parsers/ntfs/compressed.go:65-126 | mapping pairs with a sparse run of length 0, without a hole and with 16 stored clusters, whose unit loads as nothing |
| NtfsCompressed.UnitRawFits | internal/parsers/ntfs/compressed.go:66-70 | what is gathered for a unit fits the buffer made for it |
| NtfsCompressed.UnitReadBack | internal/parsers/ntfs/compressed.go:62-126 | a unit stored as a hole, as it is, or as LZNT1 chunks in front of a hole loads as the data it stores |
| NtfsCompressedReader.GatherRuns | internal/parsers/ntfs/compressed.go:70-105 | for runs of any lengths the loop with its skips and early stop gathers the specified bytes, or asks for a buffer of negative length |
| NtfsCompressedReader.LoadUnit | internal/parsers/ntfs/compressed.go:65-126 | zeros for a fully sparse unit, raw bytes without holes, LZNT1 with holes |
| NtfsCompressedReader.CompressedReader.KeepUnit | internal/parsers/ntfs/compressed.go:37-44 | the kept unit is always what loading its index gives; an error is reported only when nothing was decoded |
| NtfsCompressedReader.CompressedReader.Read | internal/parsers/ntfs/compressed.go:28-60 | whatever is kept, a read delivers what the source holds at its position and advances by it |
| NtfsCompressedReader.ReadIsLogical | internal/parsers/ntfs/compressed.go:28-60 | a read delivers the logical file's bytes at its position, at least one before the end |
| NtfsCompressedReader.DeliversLogicalFile | internal/parsers/ntfs/compressed.go:17-60 | for any sequence of buffer sizes the reader delivers the decoded units end to end, cut to the file's size |
| NtfsCompressedReader.CompressedFileReadBack | internal/parsers/ntfs/compressed.go:1-126 | a file stored unit by unit, each as a hole, as it is or as LZNT1 chunks, is that sequence of bytes, and enough reads of any sizes deliver the file |
| NtfsCompressedReader.EmptyHoleEndsFile | internal/parsers/ntfs/compressed.go:28-60 | on the file with a sparse run of length 0 every read reports the end at once |
| Lznt1Decoder.GetDisplacement | internal/parsers/ntfs/lznt1.go:22-31 | the shift loop computes the displacement |
| Lznt1Decoder.CopyReference | internal/parsers/ntfs/lznt1.go:67-77 | the byte loop copies offset and length of the split, or fails when the source lies before the output |
| Lznt1Decoder.DecodeSymbols | internal/parsers/ntfs/lznt1.go:60-80 | up to eight symbols under one shifting flag byte, stopping at the chunk's end |
| Lznt1Decoder.Decompress | internal/parsers/ntfs/lznt1.go:36-88 | the cursor loop gives the specified outcome, indexing past the input included; a raw chunk that lacks only its last byte takes it from what the buffer has spare |
| Lznt1.SplitIsLeast | internal/parsers/ntfs/lznt1.go:22-31 | at chunk position p the split leaves the least number of offset bits, four at least, that holds every offset from 1 to p, as section 2.5 of MS-XCA asks |
| Lznt1.OffsetsRepresentable | internal/parsers/ntfs/lznt1.go:22-31 | at chunk position p the split leaves room for every offset from 1 to p |
| Lznt1.FieldsUnique | internal/parsers/ntfs/lznt1.go:67-69 | the two fields of a packed reference are read back |
| Lznt1.GroupReadBack | internal/parsers/ntfs/lznt1.go:57-80 | reading an encoded group expands exactly its items and stops with its eighth item or the chunk |
| Lznt1.ChunkReadBack | internal/parsers/ntfs/lznt1.go:43-85 | reading an encoded chunk, raw or compressed, expands exactly it |
| Lznt1.RoundTrip | internal/parsers/ntfs/lznt1.go:33-88 | for every sequence of well-formed chunks without a one-byte body decoding the encoding gives the concatenated expansion, whatever follows the end |
| Lznt1.OneByteChunkIsLost | internal/parsers/ntfs/lznt1.go:48-52 | a chunk whose body is one byte ends the stream and is lost with all that follows |
| Lznt1.RoundTripIff | internal/parsers/ntfs/lznt1.go:33-88 | for every sequence of well-formed chunks it does so exactly when no body is one byte |
| Lznt1.CutChunkIsRefused | internal/parsers/ntfs/lznt1.go:53-55 | a chunk cut short by two bytes or more is refused |
| EseWalker.ReadTags | internal/parsers/ntds/ntds.go:93-113 | the tags from the page's tail, up to the stated count or the header |
| EseWalker.Walker.CollectRecords | internal/parsers/ntds/ntds.go:153-164 | appends the live non-empty records of tags 1 and on |
| EseWalker.Walker.WalkChildren | internal/parsers/ntds/ntds.go:173-185 | walks the children of the live tags in order |
| EseWalker.Walker.Walk | internal/parsers/ntds/ntds.go:138-213 | the recursion over the mutable visited set and record list is the specified walk; it ends because unvisited page numbers run out |
| EseWalker.CollectLeafRecords | internal/parsers/ntds/ntds.go:133-217 | the records of the walk from the root |
| EsePages.WalkInvariant | internal/parsers/ntds/ntds.go:138-213 | a walk from any state adds pages not visited before, each once, with their records in order, and leaves every link out of them visited |
| EsePages.WalkStaysInside | internal/parsers/ntds/ntds.go:138-213 | nothing outside a set closed under the links is visited |
| EsePages.WalkVisitsReachable | internal/parsers/ntds/ntds.go:133-217 | on any page graph, cyclic or not, the walk visits exactly the least link-closed set that holds the root, each page once, and collects the records in visit order |
| EseLayout.LeafReadBack | internal/parsers/ntds/ntds.go:72-190 | a written leaf, or root of one page, contributes its live records but for tag 0 in the order of their tags, and links to the next leaf |
| EseLayout.ParentReadBack | internal/parsers/ntds/ntds.go:72-201 | a written parent links to the pages its live records end in, in the order of their tags, tag 0 last |
| EwfDisk.Disk.constructor | internal/parsers/ewf/ewf.go:63-66 | an empty ring with no valid key |
| EwfDisk.DecodeChunk | internal/parsers/ewf/ewf.go:342-383 | a raw chunk cut to the disk's end and zero-padded, or an inflated one; errors for missing chunks and segments |
| EwfDisk.Disk.LoadChunk | internal/parsers/ewf/ewf.go:335-391 | for every image, the first occupied slot with the chunk's int32 key, or the decoded chunk, then kept in the next slot; the whole new state |
| EwfDisk.Disk.ReadAt | internal/parsers/ewf/ewf.go:129-164 | for every image and state of the ring, the chunk loop's bytes, status and new state; touches only the bytes it reports |
| EwfDisk.LoadIsTransparent | internal/parsers/ewf/ewf.go:335-391 | when chunks that share a key decode alike a load returns the decoded chunk, and every occupied slot keeps holding a chunk its key names |
| EwfDisk.ReadIsTransparent | internal/parsers/ewf/ewf.go:129-164 | so a read returns what the image holds, whatever the ring holds |
| EwfDisk.RingIsInvisibleIff | internal/parsers/ewf/ewf.go:129-164 | the ring is invisible in every history of reads exactly when chunks of the disk that share a key decode alike |
| EwfDisk.SmallImagesTellApart | internal/parsers/ewf/ewf.go:337-340 | up to 2^32 chunks no two share a key |
| EwfDisk.SecondReadServesFirst | internal/parsers/ewf/ewf.go:336-340 | after a byte of one chunk was read, a read of another that shares its key is served the first one's data |
| EwfDisk.OneTooManyIsVisible | internal/parsers/ewf/ewf.go:336-390 | on a disk of 2^32 + 1 one-byte chunks some history of reads shows the ring |
| EwfDisk.PartIsSlice | internal/parsers/ewf/ewf.go:143-158 | one chunk's part of a read is the disk's bytes there, at least one |
| EwfDisk.ReadsVirtualDisk | internal/parsers/ewf/ewf.go:128-164 | reading returns exactly the virtual disk's slice, with EOF exactly when it starts at or passes the end |
| EwfLayout.DiskReadBack | internal/parsers/ewf/ewf.go:128-391 | an image whose segments hold every chunk of a disk where the chunk map says, raw or deflated, reads as the disk |
| EwfDisk.KeysCollide | internal/parsers/ewf/ewf.go:337-340 | two chunk indices share an int32 key exactly when they lie a multiple of 2^32 apart |
| ByteWrites.ReplayedAt | internal/parsers/amcache/regf.go:437-442 | each byte after a replay comes from the last write covering it, else the old content, else a zero of the extension |
| ByteWrites.ReplayTwice | internal/parsers/amcache/regf.go:437-442 | replaying the same writes again changes nothing |
| RegfLog.WritePage | internal/parsers/amcache/regf.go:437-442 | copies a page into the hive, into a longer copy where it does not fit |
| RegfLog.ReplayEntry | internal/parsers/amcache/regf.go:422-444 | the descriptor loop replays the entry's pages up to the first bad descriptor |
| RegfLog.ApplyLog | internal/parsers/amcache/regf.go:400-448 | the entry loop replays exactly the writes of the log and ends |
| RegfLog.MergeWithLogs | internal/parsers/amcache/regf.go:383-389 | a fresh hive with both logs replayed; the caller's is untouched |
| RegfLog.SecondLogOverrides | internal/parsers/amcache/regf.go:380-389 | the second log's bytes win over the first's, those over the hive's; merging again changes nothing |
| RegfLayout.LogReadBack | internal/parsers/amcache/regf.go:391-448 | a written log, entry by entry with table, pages and padding, holds exactly the writes of its pages, in order, each behind the hive's first 4096 bytes |
| SqliteWal.SqliteDb.Page | internal/parsers/browser/sqlite.go:60-73 | the overlay's page first, then the file's, else an error |
| SqliteWal.SqliteDb.ApplyWal | internal/parsers/browser/sqlite.go:77-108 | the frame loop overlays exactly the salt-matching frames in order |
| SqliteWal.LastFrameWins | internal/parsers/browser/sqlite.go:75-76 | the last matching frame of a page is the one served |
| SqliteWal.OverlayIsPatchedFile | internal/parsers/browser/sqlite.go:60-108 | a page served through the overlay is the page of the file every frame was copied into, past the old end too |
| SqliteWal.WalServesPatchedFile | internal/parsers/browser/sqlite.go:60-108 | so for every log applied to a fresh database |
| SqliteLog.LogReadBack | internal/parsers/browser/sqlite.go:77-108 | a written log is applied as the frames that carry its salts and name a page, in order, whatever is left behind them |
| SqliteVarint.ReadVarint | internal/parsers/browser/sqlite.go:110-127 | the uint64 shift loop, nothing ever shifted out before the ninth byte |
| SqliteVarint.VarintRoundTrip | internal/parsers/browser/sqlite.go:110-127 | reading inverts the 1-to-9-byte encoding of every 64-bit value in any width that holds it, whatever is around it |
| SqliteRecord.TwosReadBack | internal/parsers/browser/sqlite.go:184-231 | big-endian two's complement of any width is read back |
| SqliteRecord.RecordRoundTrip | internal/parsers/browser/sqlite.go:157-261 | reading a record inverts writing it, for every list of columns, any varint widths and any bytes behind it |
| SqliteRecord.RowRoundTrip | internal/parsers/browser/sqlite.go:157-261 | every list of storable values is read back from the record written for it |
| SqliteRecord.CutNumbersAreNull | internal/parsers/browser/sqlite.go:178-259 | from a number that is cut off on, the columns are NULL, those before it are whole |
| SqliteRecordReader.ReadInt | internal/parsers/browser/sqlite.go:184-231 | each of the six integer types, by conversion or by shifting and filling the sign, is two's complement |
| SqliteRecordReader.ReadTypes | internal/parsers/browser/sqlite.go:168-176 | the serial types up to the header's end or a varint that is cut off |
| SqliteRecordReader.ReadValues | internal/parsers/browser/sqlite.go:178-259 | the loop over the types: numbers that are cut off leave NULLs, blobs and text are clipped |
| SqliteRecordReader.ReadRecord | internal/parsers/browser/sqlite.go:157-261 | the whole record, its error case included |
| SqliteScanner.ReadOverflow | internal/parsers/browser/sqlite.go:137-155 | the chain loop collects the needed bytes or reports a missing page; a buffer beyond Go's address space stops the program |
| SqliteScanner.ReadPayload | internal/parsers/browser/sqlite.go:299-328 | local bytes, clipped at the page, and what the overflow chain adds |
| SqliteScanner.ScanLeafPage | internal/parsers/browser/sqlite.go:263-346 | hands the rows of the page's cells to the callback in pointer order, skipping what cannot be read |
| SqliteScanner.ScanInteriorPage | internal/parsers/browser/sqlite.go:348-383 | scans the left children in cell order and then the rightmost, stopping at the first error; the tree of calls it descends is the one ScanTable builds |
| SqliteScanner.ScanTablePage | internal/parsers/browser/sqlite.go:385-410 | delivers the rows of the leaf pages left to right, and an error exactly when the tree of calls fails |
| SqliteScanner.ScanTable | internal/parsers/browser/sqlite.go:412-418 | on a page graph without a cycle and without a cell that stops the program the scan ends, with the result of the specification and an error exactly when a page it can reach is missing |
| SqliteScan.LocalLengthIffFormat | internal/parsers/browser/sqlite.go:129-135 | the code takes as many local bytes as the format stores exactly for payloads below its bound and for spilled ones that keep no more than it |
| SqliteScan.PayloadReadBack | internal/parsers/browser/sqlite.go:299-328 | a payload stored as the format lays it out, in the page and its overflow chain, is read back when the bound does not matter to its length |
| SqliteScan.CellReadBack | internal/parsers/browser/sqlite.go:284-333 | a cell written with length, row id and record as the format lays it out is scanned as the record's values when the bound does not matter to its length |
| SqlitePages.LeafReadBack | internal/parsers/browser/sqlite.go:263-293 | a leaf page has exactly the cells laid out on it, in order, on page 1 behind the file header |
| SqlitePages.InteriorReadBack | internal/parsers/browser/sqlite.go:348-383 | an interior page has the left children laid out on it, in order, then the rightmost |
| SqlitePages.WrittenIsStored | internal/parsers/browser/sqlite.go:137-155 | overflow pages that each start with the number of the next hold the rest of the payload |
| SqlitePages.TableReadBack | internal/parsers/browser/sqlite.go:263-418 | the scan of every written table b-tree returns without an error and delivers exactly its rows, in order |
| SqliteFile.RowsReadBackIff | internal/parsers/browser/sqlite.go:263-346 | over all opened files of a page size and all logs over them, the cells of leaf pages that hold a record of a length give the values it was written from exactly when the bound does not matter to the length |
| SqliteFile.TornFile | internal/parsers/browser/sqlite.go:263-346 | for every page size and every length the bound matters to, a file that opens, holds a record of that length as the format asks, and is scanned as a row with a shorter blob |
| SqliteFile.TornExample | internal/parsers/browser/sqlite.go:299-328 | one with pages of 4096 bytes and a record of 2000: a blob of 1997 zeros comes back as 999 |
| SqliteFile.OpenSqliteBytes | internal/parsers/browser/sqlite.go:45-58 | a file is opened exactly when it is long enough, has the magic and states a page size of 512 or more, 1 standing for 65536 |
| SqliteScan.ReachedLeavesAreVisited | internal/parsers/browser/sqlite.go:348-410 | a scan without error visits every leaf page that child links lead to from the root |
| SqliteScan.VisitedPerCall | internal/parsers/browser/sqlite.go:348-410 | a leaf is visited no more often than the scan is called on its page |
| SqliteScan.CycleFails | internal/parsers/browser/sqlite.go:348-410 | from a page that child links lead back to, a scan that returns ends in an error |
| SqliteTree.BuildTree | internal/parsers/browser/sqlite.go:348-410 | on a page graph without a cycle and without a cell that stops the program the calls of the scan form a finite tree |
| SqliteTree.OneTree | internal/parsers/browser/sqlite.go:348-410 | the calls of a scan are determined by its root |
| SqliteTree.ScanSucceedsIff | internal/parsers/browser/sqlite.go:348-410 | a finite tree of calls without an error exists exactly when no page reached is missing, none holds a cell that stops the program, and no child link leads back |
| SqliteTree.ScanReturnsIff | internal/parsers/browser/sqlite.go:348-418 | the scan returns without an error exactly under these conditions |
| SqliteTree.AcyclicScanReturns | internal/parsers/browser/sqlite.go:348-418 | without a cycle it returns, with an error exactly when a page it can reach is missing |
| SqliteTree.NoPageToScan | internal/parsers/browser/sqlite.go:385-392 | from a number below 1 the scan finds nothing, from a page that is not there it fails |
| SqliteFile.OwnChildNeverReturns | internal/parsers/browser/sqlite.go:348-410 | a file that opens, whose second page is its own child: the scan of that page and that of the schema recurse for ever |
| SqliteTree.TreeShapedIsAcyclic | internal/parsers/browser/sqlite.go:348-410 | a page graph in which every page has one parent and the root none has no cycle |
| SqliteTree.CalledOnce | internal/parsers/browser/sqlite.go:348-410 | on such a graph the scan is called on a page at most once |
| SqliteTree.EachLeafOnce | internal/parsers/browser/sqlite.go:263-410 | on such a graph with nothing missing the scan returns, and visits exactly the leaf pages that child links lead to, each once |
| SqliteScan.OverlayIsPatchedSource | internal/parsers/browser/sqlite.go:60-108 | the overlay serves the patched file page for page exactly when the frames leave no gap behind the old end |
| SqliteTree.ScansAgreeIff | internal/parsers/browser/sqlite.go:60-108 | over a file of whole pages, scanning through the overlay and scanning the patched file have the same result for every root, the same rows in the same order and the same error, or neither returns, exactly when the frames leave no gap |
| SqliteFile.GapExample | internal/parsers/browser/sqlite.go:60-108 | a log of one frame over a file of one page leaves a gap, whose scan fails through the overlay and is empty in the patched file |
| Orchestrator.StepKeeps | internal/orchestrator/orchestrator.go:52-138 | every step of every goroutine, the closer and the drain loop keeps the invariant on counters, nesting, channel and accounts |
| Orchestrator.RunKeeps | internal/orchestrator/orchestrator.go:52-138 | so every state of every interleaving satisfies it |
| Orchestrator.NothingSentAfterClose | internal/orchestrator/orchestrator.go:122-125 | in no run is anything sent on the closed channel, nor can anything be started or closed again |
| Orchestrator.DroppedIffFull | internal/parsers/memparse/memparse.go:269-277 | a report is dropped exactly when its sender does not wait and the channel holds 256 reports |
| Orchestrator.Progress | internal/orchestrator/orchestrator.go:62-138 | every reachable state that is not final has an enabled step: no deadlock |
| Orchestrator.RunsAreFinite | internal/orchestrator/orchestrator.go:52-138 | the number of steps of a run is bounded by the work it starts with |
| Orchestrator.TotalOfPermutation | internal/orchestrator/orchestrator.go:127-134 | the total does not depend on the order in which the reports arrive |
| Orchestrator.FinalResult | internal/orchestrator/orchestrator.go:52-138 | at the end all goroutines have returned, the errors are those enqueued, and the total is that of all error-free final reports less the dropped ones |
| Orchestrator.ParserCountsOnce | internal/orchestrator/orchestrator.go:127-134 | a parser that ends well adds the count of its last report alone, one that ends in an error adds only the error |
| Orchestrator.RunResult.Drain | internal/orchestrator/orchestrator.go:127-134 | the drain loop adds the counts of error-free final reports and collects the errors in order |

## Left out

- DuckDB, detectors, reports, HTTP, TUI, REPL and LLM code, and every parser whose result is text for an engine that is not part of this model.
- The MAM header around the LZXPRESS stream (`decompressMAM`), and the field-level SQL of SIGMA rules (`buildFieldCond`, wildcards, quoting): a field condition is one closed atom with a truth value; SQL's third truth value is not modelled.
- Tokenising: a condition is the list `strings.Fields` gives; lower-casing covers ASCII letters.
- I/O errors other than the end of a file: files are sequences of bytes, short reads happen only at their end.
- zlib inflate is a parameter of the EWF image; the segment and table parsing that fills the chunk map is not modelled.
- Shifts and masks with constant operands are written as division and remainder, or-ing of disjoint bits as addition where a lemma shows it is one.
- int64 overflow of sizes that are products of run lengths and cluster sizes, and of the orchestrator's total, is not modelled; run numbers, deltas, addresses, run tables and code numbers wrap as in Go.
- PhysicalDump.PhysToFileInjective: assumes page-disjoint runs whose addresses and file offsets do not wrap, as a valid header gives; PhysicalDump.ReadPhys itself assumes nothing.
- Paging.VReadTranslatesEveryByte: assumes the same of the dump's runs, and so do the theorems of PageTables; Paging.VRead assumes nothing.
- XpressEncoder.WrittenStreamDecompresses: matches of up to 65538 bytes, and none that goes on in the next block; the four-byte lengths of MS-XCA are not read by the code.
- Lznt1.RoundTrip: references behind the first symbol of a chunk and within its first 65536 bytes, where the format's chunks have 4096.
- NtfsWritten.FileReadBack: assumes runs of at least one cluster.
- NtfsStreams.StreamDeliversContent: assumes the runs cover the size and lie inside the volume.
- NtfsCompressedReader.DeliversLogicalFile: assumes every unit but the last decodes to its full size; a unit that falls short ends the stream, as NtfsCompressedReader.CompressedReader.Read states.
- NtfsCompressed.GatherIsWindow: assumes lengths that are not negative, without which a file has no cluster map; NtfsCompressed.HaltsIff and NtfsCompressedReader.GatherRuns assume nothing of them.
- NtfsCompressedReader.LoadUnit: raw bytes that outgrow the unit, which only negative lengths gather (NtfsCompressed.UnitRawFits), are taken to have no spare capacity behind them; how Go grows a buffer is not modelled.
- SqliteFile.RowsReadBackIff: assumes a length for whose overflow pages there are page numbers of 32 bits.
- SqliteTree.ScansAgreeIff: assumes a file of whole pages, as SQLite writes it; a part of a page behind them can hold an interior page whose scan fails either way. SqliteTree.ScanThroughOverlay, the half without a gap, does not.
- EwfDisk.ReadsVirtualDisk: assumes chunks that decode to their nominal length, and so does EwfDisk.RingIsInvisibleIff.
- SqliteWal.WalServesPatchedFile: assumes the log's page size is the database's; SqliteWal.SqliteDb.ApplyWal does not. Commit marks and checksums are not checked by the code.
- SqliteScanner.ScanTable: requires what makes the scan end; runs that recurse for ever or are stopped by a cell's payload length (negative, or more than Go can allocate) are the outcome NeverReturns of the specification. The callback collects and never fails, and running out of memory below Go's limit is not modelled.
- Orchestrator.RunKeeps: adding to a wait group and starting the goroutine are one step, and which reports a parser sends is arbitrary but fixed before the run; elapsed times and the progress display are not modelled.
- The search for the segments of a run list in extension records, ESE catalogue parsing and record decoding, registry cells, and the SQLite schema lookup.
