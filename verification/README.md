# memDBG: verified models

This project models four components of memDBG in Dafny and proves what they are
for.

* **The LZ4 block codec** (`Lz4Format`, `Lz4Layout`, `Lz4Greedy`, `Lz4Parse`,
  `Lz4Encoder`, `Lz4Decoder`, `Lz4Codec`). The compressor is an object whose hash table
  and generation counter survive from call to call; the block format has its own
  reference decoder. Proved: the round trip for every table content, the end-of-block
  conditions, which matches are taken and how far they go, that the output depends on
  nothing but source and capacity, that `lz4_compress_bound` is enough, that the decoder
  is the reference decoder on every byte string, and that this decodes nothing but
  written blocks.
* **The sJson library** (`JsonGrammar`, `JsonTokens`, `JsonSyntax`, `JsonLimits`,
  `JsonScan`, `JsonMachine`, `JsonMoves`, `JsonParser`, `JsonText`, `JsonLayout`,
  `JsonWriter`, `JsonCodec`, `JsonSort`, `JsonObject`). The explicit-stack parser is
  proved to accept exactly what a recursive-descent reading of RFC 8259, sections 2 to
  7, accepts within the limits, and to build the same tree; and this reading to accept
  exactly the texts that the grammar of the RFC spells, with every choice of white
  space, escapes and forms of numbers, strings coming out in UTF-8. The writer produces
  the reference text, measured or in a bounded buffer, and parsing it gives the tree
  back; compact text is the shortest there is, and pretty text is compact text with
  white space put in by one pass over its bytes. The introsort sorts in O(n log n) comparisons, and an object is a
  finite map whichever way a key is looked up, through every interleaving of sets,
  finalizes and gets. The compile-time limits are parameters.
  A number with a fraction or an exponent is kept as its text, and a parameter tells
  which of these texts the C library reads as a finite double.
* **The GDB Remote Serial Protocol bridge** (`Hex`, `RspFraming`, `RspBackend`,
  `RspMemory`, `GdbRegs`, `RspRegisters`, `RspSession`). Framing on a damaged byte
  stream, memory reads that hide the bridge's own breakpoints, the chunked search, the
  register file and its packets, and a session whose backend may fail at any call. The
  session's safety is stated on the history of backend calls. The backend counts the
  calls that fail or fall short, so that every packet is answered as it asks exactly
  when no call failed behind it, and an error is a refused argument or such a call. It
  also keeps what it has been made to do (let the process run or one thread step, traps,
  watchpoints, kills), so that a packet is known to do what it says and nothing else.
* **The tracer event rings** (`Bits`, `TracerRing`, `DaemonRing`). The sequential ring
  is a queue that drops its oldest entries, through index wrap at 2^32. The lock-free
  ring is a state machine of single loads, stores and slot accesses that interleave.

`Bytes` holds what they share. A byte is an integer below 256, a machine word the
natural number its bits denote; every place where the source's arithmetic wraps or
truncates has the modulus written out. Code that works in place on buffers keeps its
arrays, loops and fields here; where a source function is only an expression it is a
function. Calls that may fail for outside reasons (memory, the backend, the network)
fail nondeterministically or after any number of successes.

Some statements that suggest themselves are false of the code. For each the model has
an input that shows it and the exact condition under which it holds:

* *Daemon ring.* That the published head is never more than 8192 ahead of the stored
  tail does not make the popped events a prefix of the pushed ones: the slot is written
  before the head is published. `DaemonRing.FullRingLosesOldest` is a run from the start
  that shows it. `DaemonRing.Harmless` is the exact condition: in every run whose writes
  meet it the prefix holds (`PoppedIsPrefix`), and from every state of the protocol a
  write that does not meet it lets the consumer, by itself, lose the prefix
  (`WriteIsSafe`). A producer that writes no slot while the indices are 8192 apart
  always meets it (`RoomyIsPrefix`).
* *Breakpoint table.* Clearing a hardware breakpoint (`z1`) at an address that also
  carries a software breakpoint takes the trap out and leaves the table entry, because
  both kinds share one backend call. Inserting a software breakpoint (`Z0`) where the
  table lists one would make the table take the trap for the byte below it; that needs a
  backend that accepts a second insertion, as the mock of
  `tools/gdb_bridge/tests/test_gdb_bridge.cpp:141-145` does and the payload does not
  (`src/debug/session/breakpoints.c:411-414`). `RspSession.Keeps` is the exact condition
  for any backend under which a packet that succeeds leaves the table telling what the
  traps replaced (`AppliedTruthful`, and `Handle` for every packet). With a `strict`
  backend, one that refuses an insertion at a trapped address, a packet spoils the table
  exactly when it is a successful `z1` at a listed address (`Handle`), and no run without
  `z1` does (`Serve`). A reader sees the error only once the byte differs from the entry:
  right after `z1` the stale entry still is the byte in memory, and after a later write
  the reply shows the old byte (`StaleEntry`, `StaleReadDiffers`, `ReadStaleEntry`).
  `ReadIsRight` says for any table exactly which replies are right.
* *Writes over breakpoints.* A write is read back exactly when the table lists no other
  byte in its range (`RspSession.Handler.WriteThenRead`).
* *Decoded packet size.* The decoder does not look at the limit of 0x200000 bytes when it
  takes an escaped byte, and the room it counts for the next run then wraps.
  `RspFraming.BeyondLimit` is a body of admissible length that decodes to 98 bytes more
  than the limit; `RspFraming.WithinLimit` says exactly when a packet stays within it.
* *Register records.* With a floating-point record shorter than 512 bytes a write to one
  register can change what another reads, because completing the record brings to light
  what was in it: `GdbRegs.ShortRecordShows`, and exactly when in
  `GdbRegs.WithRegisterKeeps`. Sending back the registers that were read changes nothing
  exactly when both selectors have 32 bits and the record is complete or absent
  (`GdbRegs.SentBack`); what the registers read as never changes (`GdbRegs.ReadsTheSame`).
* *Repeated bytes.* That four bytes seen before within 65535 bytes are matched is true
  only of positions the search looks at, and only if the earlier place was the last one
  entered in its bucket and lies among the first 2^20: `Lz4Parse.Offers` is the exact
  condition, `LookupIsOffered` and `OfferIsLookup` tie it to the hash table, and
  `Lz4Parse.IsParse` says what block follows from it.
* *Empty object keys.* A parsed empty key has no data and hashes to zero, so no lookup
  finds it, and setting the empty key always fails; for every other key an object is the
  map (`JsonObject.Object.Get`, `JsonObject.Object.Set`).

The comment above `json_obj_finalize` says that lookups sort an unsorted object
themselves; the code scans it instead, and so does the model.

## Model

| member | source | states |
|---|---|---|
| `Bytes.FirstDiffByte` | src/util/lz4.c:70-81 | the portable byte loop gives trailing zeros divided by eight |
| `Bytes.FirstDifference` | src/util/lz4.c:198-205 | for any two different words, trailing zeros of their exclusive-or divided by eight is the first differing byte |
| `Bytes.HexDigits` | tools/gdb_bridge/gdb_regs.cpp:16-25 | hexadecimal digits are the sixteen characters in order, read in either case, and no other byte is one |
| `Lz4Format.ParseEncode` | src/util/lz4.c:220-283 | parsing the bytes of any well-formed block gives the block back, with unbounded or 32-bit lengths |
| `Lz4Format.RoundTrip` | src/util/lz4.c:298-369 | an encoded block that stands for a source decodes to that source in any buffer long enough |
| `Lz4Format.BlockSize` | src/util/lz4.c:372-375 | no block that stands for a source of n bytes is longer than n + n/255 + 2 |
| `Lz4Format.CopyMatchUnique` | src/util/lz4.c:339-367 | the overlapping byte-by-byte copy is the only extension that repeats with the given offset |
| `Lz4Format.CopyMatchBlock` | src/util/lz4.c:344-352 | copying a block no longer than the offset at once is the same overlapping copy |
| `Lz4Format.NarrowLengthsSuffice` | src/util/lz4.c:303-336 | up to 16 MiB of input the 32-bit length counters cannot wrap |
| `Lz4Decoder.ReadExtension` | src/util/lz4.c:303-310 | the extension bytes add up, modulo 2^32, to what the format says, or the input ends |
| `Lz4Decoder.CopyBack` | src/util/lz4.c:339-367 | the 8-byte copy, the memset and the byte loop all produce the overlapping copy and touch nothing else |
| `Lz4Decoder.DecodeOne` | src/util/lz4.c:298-367 | one iteration reads one item of the format and applies it within input and capacity |
| `Lz4Decoder.DecompressSafe` | src/util/lz4.c:286-370 | for every byte string: -1 exactly when the reference decoder rejects, else its output; nothing at or past the capacity is written |
| `Lz4Decoder.NarrowDecodeIsDecode` | src/util/lz4.c:286-370 | up to 16 MiB the decoder is the byte-at-a-time reference decoder of the format |
| `Lz4Greedy.MatchEndWord` | src/util/lz4.c:198-211 | one 64-bit comparison advances the match end as eight byte comparisons would |
| `Lz4Greedy.Extend` | src/util/lz4.c:187-218 | adding a found match keeps the sequences a correct account of the source, with a legal offset, length and distance from the end |
| `Lz4Greedy.ParsedStandsFor` | src/util/lz4.c:220-283 | a correct account closed by the remaining literals is a legal block for the whole source |
| `Lz4Parse.LookupIsOffered` | src/util/lz4.c:103-108 | what a lookup gives is what is offered: the position entered last in the bucket, among the first 2^20, at distance 1 to 65535, with the same four bytes |
| `Lz4Parse.OfferIsLookup` | src/util/lz4.c:157-175 | whatever is offered at a position is what the lookup gives |
| `Lz4Parse.SearchAmounts` | src/util/lz4.c:151-180 | the accelerating search takes the first offer among the positions one, then two and more apart, or there is none at any of them |
| `Lz4Parse.EachAtFirst` | src/util/lz4.c:154-177 | the first 257 positions of a search are looked at one by one |
| `Lz4Parse.MatchIsLongest` | src/util/lz4.c:187-218 | a match runs to the first difference or to the last five bytes |
| `Lz4Parse.GreedyIsParse` | src/util/lz4.c:149-283 | the block of a call from a clean table is the parse: first offers, longest matches, everything passed over entered, the rest literals |
| `Lz4Parse.IsOnlyParse` | src/util/lz4.c:149-283 | a source has only one such parse |
| `Lz4Parse.FirstRun` | src/util/lz4.c:149-218 | if the four bytes at the start stand at position one too, the first match is there, at distance one and as long as can be |
| `Lz4Parse.RunsAreTaken` | src/util/lz4.c:151-180 | a block without matches leaves no five equal bytes among the positions looked at one by one |
| `Lz4Parse.EqualBytes` | src/util/lz4.c:149-283 | n equal bytes become one literal, one match and five literals, in 11 + (n - 25)/255 bytes |
| `Lz4Layout.ExtensionBytes` | src/util/lz4.c:66-90 | extension bytes are 255 except the last, which is less, and add up to the length less fifteen |
| `Lz4Layout.SequenceBytes` | src/util/lz4.c:220-262 | token halves, literals, little-endian offset and extension bytes of a sequence stand where the format says |
| `Lz4Layout.HashBits` | src/util/lz4.c:58-63 | the bucket of four bytes is the top twelve bits of a 32-bit product |
| `Lz4Layout.ParsesOnlyEncodings` | src/util/lz4.c:298-336 | whatever parses with proper offsets has been written so, except for the free half of the last token |
| `Lz4Layout.DecodesOnlyBlocks` | src/util/lz4.c:286-370 | whatever decodes is the writing of a block that stands for the output |
| `Lz4Encoder.Compressor.Put` | src/util/lz4.c:95-98 | the bucket holds the generation and the position modulo 2^20, no other bucket changes |
| `Lz4Encoder.Compressor.Get` | src/util/lz4.c:103-108 | the generation test and the low twenty bits of `lz4_ht_get`: a bucket of another generation reads as absent |
| `Lz4Encoder.Compressor.NextGeneration` | src/util/lz4.c:133-147 | after the counter step, wrap reset or large-input reset, the table shows no position of an earlier call to this source |
| `Lz4Encoder.Compressor.Probe` | src/util/lz4.c:157-175 | a candidate that passes the distance test was entered during this call, also at generation 4095 |
| `Lz4Encoder.Compressor.FindMatch` | src/util/lz4.c:151-180 | the accelerating search finds the match the greedy search finds, and any match it finds is one |
| `Lz4Encoder.ExtendMatch` | src/util/lz4.c:187-218 | word-at-a-time and byte-at-a-time extension end where the first difference or the last five bytes begin |
| `Lz4Encoder.WriteLen` | src/util/lz4.c:83-90 | the length bytes written are those of the format and as many as counted |
| `Lz4Encoder.EmitSequence` | src/util/lz4.c:220-262 | a sequence is written as the format encodes it, or refused before a byte is written if it does not fit |
| `Lz4Encoder.EmitLast` | src/util/lz4.c:267-283 | the final literals are written as the format encodes them, or refused before a byte is written |
| `Lz4Encoder.Compressor.Compress` | src/util/lz4.c:133-283 | for any table: the output encodes a legal block for the source or there is no room; from a clean table it is the greedy block, which is the parse |
| `Lz4Encoder.Compressor.CompressDefault` | src/util/lz4.c:110-283 | argument checks, legal output, independence of history, the parse from a clean table, and success whenever the capacity is at least the bound |
| `Lz4Codec.CompressThenDecompress` | src/util/lz4.c:110-370 | for every source of 32 bytes or more, capacity and table content: what was compressed decompresses to the source; a buffer of the bound never fails |
| `Lz4Codec.SameOutput` | src/util/lz4.c:95-178 | two compressors with any histories write the same bytes for the same source and capacity |
| `JsonTokens.Utf8Reads` | external/sjson/sJson.c:1001-1025 | the bytes written for a code point are the only ones a UTF-8 reader of its own (RFC 3629) turns into it |
| `JsonTokens.EscapeMeans` | external/sjson/sJson.c:1195-1235 | four hexadecimal digits behind backslash and u become, as a text of their own, the UTF-8 bytes of that code point |
| `JsonTokens.PairMeans` | external/sjson/sJson.c:1125-1150 | and so does a surrogate pair, of ten bits each |
| `JsonTokens.CharsRead` | external/sjson/sJson.c:1034-1243 | every spelling of a string's characters is read as what it means |
| `JsonTokens.CharsSpelled` | external/sjson/sJson.c:1034-1243 | every string that is read is such a spelling |
| `JsonTokens.NumeralRead` | external/sjson/sJson.c:1285-1441 | every spelling of a number is read as what it means |
| `JsonTokens.NumeralSpelled` | external/sjson/sJson.c:1285-1441 | every number that is read is such a spelling |
| `JsonSyntax.ValueRead` | external/sjson/sJson.c:1545-1919 | every spelling of a value, with any white space in it, is read as what it means, wherever it stands |
| `JsonSyntax.ValueSpelled` | external/sjson/sJson.c:1545-1919 | every value that is read has such a spelling |
| `JsonSyntax.ReadsExactlySpellings` | external/sjson/sJson.c:1545-1919 | a text is read as a tree if and only if it spells the tree |
| `JsonLimits.FitsMeans` | external/sjson/sJson.c:1545-1919 | a tree fits exactly if strings, keys, arrays, numbers, nesting and nodes are each within their limits |
| `JsonLimits.CapacityLeast` | external/sjson/sJson.c:1490-1538 | the room for entries is the least eight times a power of two that holds them |
| `JsonScan.SkipSpaces` | external/sjson/sJson.c:942-960 | stops where the grammar's white space ends |
| `JsonScan.Measure` | external/sjson/sJson.c:1095-1173 | the measuring pass counts exactly the bytes the decoded string has and finds the same closing quote, or rejects with the grammar |
| `JsonScan.DecodeInto` | external/sjson/sJson.c:1175-1243 | the decoding pass fills exactly the measured buffer with the reference decoding and stops at the same quote |
| `JsonScan.ParseString` | external/sjson/sJson.c:1034-1243 | fast path and two-pass path both read exactly the strings of RFC 8259 section 7 within the length limit; each error says whether the string is wrong or too long |
| `JsonScan.ReadDigits` | external/sjson/sJson.c:1314-1338 | up to 19 digits give their decimal value below 2^64, more only clear the flag |
| `JsonScan.DecimalFront` | external/sjson/sJson.c:1314-1338 | in a decimal number the first digit weighs most |
| `JsonScan.SkipFraction` | external/sjson/sJson.c:1340-1383 | fraction and exponent end where the grammar says, or the number is refused |
| `JsonScan.ParseNumber` | external/sjson/sJson.c:1285-1441 | a number is read exactly when the grammar reads one; an integer within the signed 64-bit range, any other number if the C library makes it a finite double; which error comes when |
| `JsonMachine.PartsOfWhole` | external/sjson/sJson.c:1604-1890 | whatever the frames of a stack hold is part of the final tree, so a limit broken early is broken by the whole |
| `JsonMachine.CompletesIsPart` | external/sjson/sJson.c:1604-1890 | a stack that the rest of the text completes ends up inside the final tree |
| `JsonMachine.DeliverExcess` | external/sjson/sJson.c:1728-1752 | delivering a value to its parent adds exactly the value's nodes and broken limits |
| `JsonMoves.PushGood` | external/sjson/sJson.c:1800-1810 | a value frame over a waiting one leaves the meaning of stack and position unchanged, and there was room for it |
| `JsonMoves.HandDown` | external/sjson/sJson.c:1720-1757 | delivering a complete value to the frame that waits for it leaves the meaning unchanged and the parts within the limits |
| `JsonMoves.NoRoomRefuses` | external/sjson/sJson.c:1728-1752 | an array that cannot take one more entry means that the text is to be refused |
| `JsonMoves.NodesRefuse` | external/sjson/sJson.c:1602-1616 | a value when no node is left means that the text has too many values |
| `JsonMoves.PartExceeds` | external/sjson/sJson.c:1602-1901 | a limit broken by what is read is broken by the whole |
| `JsonMoves.ScalarMove` | external/sjson/sJson.c:1608-1640 | a scalar value completes what is read, or the text is to be refused |
| `JsonMoves.DepthRefuses` | external/sjson/sJson.c:1648-1652 | a container opened at the greatest depth means that the text is too deep, whatever the other limits are |
| `JsonMoves.ArrayOpens` | external/sjson/sJson.c:1642-1672 | an opening bracket leads to the empty array or to a frame for the first entry, with the same meaning |
| `JsonMoves.ObjectOpens` | external/sjson/sJson.c:1674-1707 | an opening brace leads to the empty object or to a frame for the first key, with the same meaning |
| `JsonMoves.ArrayMove` | external/sjson/sJson.c:1761-1813 | after an entry a bracket, a comma or anything else does to the stack what the grammar says |
| `JsonMoves.NoKey` | external/sjson/sJson.c:1817-1830 | anything but a key where a key is due means that there is no tree |
| `JsonMoves.KeyMove` | external/sjson/sJson.c:1817-1830 | likewise a key |
| `JsonMoves.ColonMove` | external/sjson/sJson.c:1833-1847 | likewise a colon |
| `JsonMoves.ObjectMove` | external/sjson/sJson.c:1850-1894 | likewise a brace or a comma after a member |
| `JsonParser.Parser.Deliver` | external/sjson/sJson.c:1714-1757 | a completed value goes to the frame below or is the result; the unexpected-parent error cannot occur |
| `JsonParser.Parser.BeginArray` | external/sjson/sJson.c:1642-1672 | an opening bracket keeps the meaning, or fails only beyond the depth or node limit |
| `JsonParser.Parser.BeginObject` | external/sjson/sJson.c:1674-1707 | an opening brace keeps the meaning, or fails only beyond a limit |
| `JsonParser.Parser.Step` | external/sjson/sJson.c:1602-1901 | each of the seven states keeps depth, frame states and meaning; the fallback states are never on top |
| `JsonParser.Parse` | external/sjson/sJson.c:1545-1919 | for every text: the result is the tree of the recursive grammar when it accepts within all limits, an error when it does not; each error says why (no tree, too deep, too many nodes, another limit), and memory is the only other failure |
| `JsonText.EscapedSpells` | external/sjson/sJson.c:2281-2316 | every byte string, control bytes included, escapes to a spelling that means it |
| `JsonText.IntSpells` | external/sjson/sJson.c:2209-2241 | every signed 64-bit integer, the minimum included, is written as a numeral that means it |
| `JsonText.TextSpells` | external/sjson/sJson.c:2319-2407 | the text of a tree, compact or pretty with any indent, is one of its spellings |
| `JsonText.TextReads` | external/sjson/sJson.c:2319-2407 | the text of a tree reads back as the tree wherever it stands, compact or pretty with any indent |
| `JsonText.RoundTrip` | external/sjson/sJson.c:2319-2407 | the reference grammar reads what is written for every float-free tree, with or without a newline |
| `JsonText.LimitedRoundTrip` | external/sjson/sJson.c:1545-1919 | and so does a parser whose limits admit the tree |
| `JsonText.WidthIsProduct` | external/sjson/sJson.c:2199-2206 | indentation is depth times indent in 32 bits |
| `JsonLayout.CompactIsShortest` | external/sjson/sJson.c:2319-2407 | no text that reads as a tree is shorter than its compact text |
| `JsonLayout.PrettyIsSpread` | external/sjson/sJson.c:2319-2407 | pretty text is what one pass makes of compact text: new lines of depth times indent spaces behind opening bytes and commas and before closing bytes, one space behind a colon, nothing in empty containers and strings; compact text has no white space outside strings |
| `JsonWriter.Writer.Put` | external/sjson/sJson.c:2181-2187 | a byte is stored while one place is left for the terminator; a failure once recorded stays |
| `JsonWriter.Writer.Puts` | external/sjson/sJson.c:2189-2197 | all of a text is asked for, and the result says whether it fits |
| `JsonWriter.Writer.Indent` | external/sjson/sJson.c:2199-2206 | exactly that many spaces are asked for |
| `JsonWriter.DivideOut` | external/sjson/sJson.c:2226-2229 | the digits of a number in reverse, at most 19 of them |
| `JsonWriter.Writer.Int64` | external/sjson/sJson.c:2209-2241 | the digits come out as the decimal text, from a 22-byte buffer that is never overrun |
| `JsonWriter.Writer.StringContent` | external/sjson/sJson.c:2281-2316 | the escaped text is asked for, and failure is reported exactly when it did not fit |
| `JsonWriter.Writer.Value` | external/sjson/sJson.c:2319-2407 | the whole text of the tree is asked for, early exits included, and the result says whether it fits |
| `JsonWriter.Writer.Array` | external/sjson/sJson.c:2348-2370 | brackets, breaks, entries and commas as in the reference text, with every early exit |
| `JsonWriter.Writer.Object` | external/sjson/sJson.c:2372-2402 | braces, breaks, keys, values and commas as in the reference text, with every early exit |
| `JsonWriter.Write` | external/sjson/sJson.c:2411-2444 | without a buffer the exact length; with one, success exactly when text and terminator fit, and then exactly that content |
| `JsonWriter.WriteArena` | external/sjson/sJson.c:2453-2477 | the only failure is memory; a short buffer is never reported |
| `JsonCodec.WriteThenParse` | external/sjson/sJson.c:1545-1919 | writing a tree and parsing the bytes gives the same tree unless memory runs out |
| `JsonSort.CompareTotal` | external/sjson/sJson.c:705-726 | comparison by hash, bytes and length is antisymmetric and zero only on equal keys |
| `JsonSort.CompareIsLess` | external/sjson/sJson.c:705-726 | keys are in order of their hashes, and in dictionary order where these agree |
| `JsonSort.CompareTransitive` | external/sjson/sJson.c:705-726 | the key comparison is transitive |
| `JsonSort.InsertionSort` | external/sjson/sJson.c:728-744 | the range ends ordered, rearranged, within its bounds, nothing outside moves; at most (n - 1)^2 comparisons |
| `JsonSort.Insert` | external/sjson/sJson.c:733-742 | shifting entries up and dropping the held one is a rearrangement that extends the ordered part |
| `JsonSort.SiftDown` | external/sjson/sJson.c:747-768 | restores the heap below a root by exchanges within the heap; the comparisons of all its levels are at most twice the height |
| `JsonSort.SiftOnce` | external/sjson/sJson.c:754-767 | one level, with two comparisons at most: the larger child goes up or the heap is in order; the child index does not wrap |
| `JsonSort.RootIsMaximum` | external/sjson/sJson.c:747-768 | the first entry of a heap exceeds every other |
| `JsonSort.ExtractMaximum` | external/sjson/sJson.c:787-790 | one extraction leaves a smaller heap with nothing in it above the ordered end |
| `JsonSort.HeapSort` | external/sjson/sJson.c:770-791 | the range ends ordered and rearranged, in at most 3 n h comparisons for fewer than 2^h entries |
| `JsonSort.ChoosePivot` | external/sjson/sJson.c:823-839 | with three comparisons the median of three stands last but one, the least in front, the greatest at the end |
| `JsonSort.Split` | external/sjson/sJson.c:841-849 | both partition scans stay inside the range, stopped by the pivot and the least of three, with one comparison a step |
| `JsonSort.Partition` | external/sjson/sJson.c:823-852 | the pivot ends in its place with nothing greater before and nothing less behind it, after at most three comparisons an entry |
| `JsonSort.IntroSort` | external/sjson/sJson.c:801-865 | the range ends ordered and rearranged; recursion is no deeper than the budget nor than the logarithm of the length; comparisons stay within the budget |
| `JsonSort.BudgetIs` | external/sjson/sJson.c:686-693 | the budget for n entries, d partitions and heaps below 2^h is n (3d + 3h + 16) comparisons |
| `JsonSort.BudgetSplits` | external/sjson/sJson.c:855-863 | a partition and the budgets of its two parts stay within the budget of the whole |
| `JsonObject.Hash` | external/sjson/sJson.c:667-681 | the loop computes FNV-1a in 32 bits, and zero for a key without data |
| `JsonObject.FnvNext` | external/sjson/sJson.c:667-681 | the hash starts at the published offset, takes a byte in by its bits and then multiplies by the published prime |
| `JsonObject.FloorLog2` | external/sjson/sJson.c:794-799 | the greatest power of two not above the argument |
| `JsonObject.MapHolds` | external/sjson/sJson.c:1999-2064 | with distinct keys the pairs and the map have the same entries |
| `JsonObject.PutUpdatesMap` | external/sjson/sJson.c:2589-2636 | replacing a pair or appending one is the map update |
| `JsonObject.SortedIsIndexed` | external/sjson/sJson.c:890-908 | sorting the identity gives an index that lists every pair once, in key order |
| `JsonObject.Object.Scan` | external/sjson/sJson.c:2016-2030 | the linear scan with lazy hashes finds the pair of a key or that there is none, never an empty key, and changes no pair |
| `JsonObject.Object.Grow` | external/sjson/sJson.c:1516-1538 | capacity doubles, the pairs stay, the index goes; from 2^31 pairs on it reports an overflow |
| `JsonObject.Object.Overwrite` | external/sjson/sJson.c:2611-2614 | only the value of the pair changes; an index stays valid |
| `JsonObject.Object.Add` | external/sjson/sJson.c:2619-2636 | a pair whose key is not there goes last, or the pairs stay as they were; memory and capacity are the only reasons |
| `JsonObject.Object.Append` | external/sjson/sJson.c:2628-2634 | the pair goes last and the index is invalidated |
| `JsonObject.Object.ComputeHashes` | external/sjson/sJson.c:891-898 | every hash is computed, the index is the identity, the pairs do not change |
| `JsonObject.Object.SortIndex` | external/sjson/sJson.c:900-908 | the index lists the pairs in key order, after at most n (9 log n + 19) comparisons |
| `JsonObject.Object.Set` | external/sjson/sJson.c:2589-2636 | the map is updated at the key; a set that fails, as for the empty key, leaves pairs and map as they were |
| `JsonObject.Object.Finalize` | external/sjson/sJson.c:872-910 | the object is sorted afterwards and its pairs are unchanged |
| `JsonObject.Object.Search` | external/sjson/sJson.c:2032-2063 | binary search over the index finds what a scan finds |
| `JsonObject.Object.Get` | external/sjson/sJson.c:1999-2064 | the answer is what the map holds at a key that is not empty, whatever the state of hashes and index |
| `JsonObject.Object.Replay` | external/sjson/sJson.c:1999-2064 | every interleaving of sets, finalizes and gets follows the map, get by get and whichever of them fail; with memory enough only sets of the empty key fail |
| `JsonObject.LastSetIsRead` | external/sjson/sJson.c:1999-2064 | in every such run a get answers with the value of the last set of its key that succeeded, or of the start |
| `JsonObject.Object.Perform` | external/sjson/sJson.c:2589-2636 | one operation does to the map what it says and answers from it, and fails for want of memory only or for the empty key |
| `Hex.BytesToHex` | tools/gdb_bridge/gdb_regs.cpp:77-86 | two lower-case digits for each byte |
| `Hex.HexToBytes` | tools/gdb_bridge/gdb_regs.cpp:88-98 | succeeds exactly on hexadecimal text of the right length, with the bytes it denotes |
| `Hex.UnhexHex` | tools/gdb_bridge/gdb_regs.cpp:77-98 | hexadecimal text reads back as the bytes |
| `RspFraming.ComputeChecksum` | tools/gdb_bridge/rsp_server.cpp:85-90 | the loop computes the checksum, the plain sum of the bytes modulo 256 |
| `RspFraming.AcceptsBySum` | tools/gdb_bridge/rsp_server.cpp:214-235 | a body is accepted exactly when both digits are hexadecimal, denote the sum of its bytes modulo 256, and it decodes |
| `RspFraming.SumDecides` | tools/gdb_bridge/rsp_server.cpp:185-240 | on the wire such a packet is received and answered by a plus, any other is answered by a minus and passed over |
| `RspFraming.KnownPacket` | tools/gdb_bridge/rsp_server.cpp:85-129 | `$qSupported#37` is sent and received byte for byte |
| `RspFraming.FlipIsXor` | tools/gdb_bridge/rsp_server.cpp:98-98 | the escape transformation is exclusive-or with 0x20 |
| `RspFraming.Escape` | tools/gdb_bridge/rsp_server.cpp:92-104 | the loop computes the reference escaping |
| `RspFraming.EscapedIsClean` | tools/gdb_bridge/rsp_server.cpp:92-104 | escaped text holds no dollar sign, hash mark or star, is no shorter than the payload, and is the payload exactly when that holds none of the four special bytes |
| `RspFraming.Decode` | tools/gdb_bridge/rsp_server.cpp:106-129 | the loop with escapes, runs and the 64-bit room test computes the reference decoding |
| `RspFraming.DecodeEncode` | tools/gdb_bridge/rsp_server.cpp:106-129 | any mixture of plain bytes, escapes and runs decodes to what it stands for, up to the size limit, whatever follows it |
| `RspFraming.DecodesOnlyEncodings` | tools/gdb_bridge/rsp_server.cpp:106-129 | whatever decodes is such a mixture and decodes to what it stands for |
| `RspFraming.DecodeEscaped` | tools/gdb_bridge/rsp_server.cpp:92-129 | decoding undoes escaping |
| `RspFraming.WithinLimit` | tools/gdb_bridge/rsp_server.cpp:106-129 | what decodes stays within 0x200000 bytes exactly when no escaped byte comes at that size |
| `RspFraming.BeyondLimit` | tools/gdb_bridge/rsp_server.cpp:106-129 | a body short enough to be received that decodes to 98 bytes more than the limit |
| `RspFraming.Connection.ReadBody` | tools/gdb_bridge/rsp_server.cpp:202-209 | the body ends at the first hash mark, or the packet is given up at the limit or at the end of the stream |
| `RspFraming.Judge` | tools/gdb_bridge/rsp_server.cpp:214-235 | a packet passes exactly when both digits are hexadecimal, the checksum matches and the body decodes |
| `RspFraming.Connection.ReceivePacket` | tools/gdb_bridge/rsp_server.cpp:185-240 | packet, consumed bytes and acknowledgements are those of the reference receiver on every stream |
| `RspFraming.Connection.PollInterrupt` | tools/gdb_bridge/rsp_server.cpp:242-252 | an interrupt is taken, any other byte stays in front |
| `RspFraming.Connection.SendPacket` | tools/gdb_bridge/rsp_server.cpp:260-281 | writes the frame of the payload, or part of it and fails; then the answer is the acknowledgement byte |
| `RspFraming.PacketSurvives` | tools/gdb_bridge/rsp_server.cpp:185-240 | after any junk and any number of refused packets the next sent payload is received, consumed through its checksum, with one minus each and one plus |
| `RspBackend.AttachesAlternate` | tools/gdb_bridge/rsp_handler.cpp:51-97 | in an orderly history there is a detach between any two attaches |
| `RspBackend.DetachesAlternate` | tools/gdb_bridge/rsp_handler.cpp:51-97 | in an orderly history there is an attach between any two detaches |
| `RspBackend.UsesAreInSession` | tools/gdb_bridge/rsp_handler.cpp:77-97 | every use of a process follows an attach to it with no detach between |
| `RspBackend.HaltedBeforeDetach` | tools/gdb_bridge/rsp_handler.cpp:51-61 | a process is halted right before it is left |
| `RspBackend.PlacedSince` | tools/gdb_bridge/rsp_handler_run.cpp:145-161 | a breakpoint counted as placed was placed in the current session |
| `RspMemory.ParseHex` | tools/gdb_bridge/rsp_protocol.cpp:17-39 | a number is read exactly when there are digits, all hexadecimal, that denote less than 2^64 |
| `RspMemory.RangeMapped` | tools/gdb_bridge/rsp_protocol.cpp:161-179 | true exactly when every byte of the range lies in the union of the maps, in any order and overlap |
| `RspMemory.Furthest` | tools/gdb_bridge/rsp_protocol.cpp:169-174 | the maps that hold the cursor cover everything up to the result, and the result is the cursor exactly when none does |
| `RspMemory.Mask` | tools/gdb_bridge/rsp_handler_memory.cpp:52-60 | every byte under a table entry is put back, in whatever order the table yields them |
| `RspMemory.ReadMemory` | tools/gdb_bridge/rsp_handler_memory.cpp:33-65 | a refused request gets its error; an admitted one all chunks joined with breakpoints masked when no read failed or fell short, and an error exactly when one did |
| `RspMemory.FirstOccurrence` | tools/gdb_bridge/rsp_handler_memory.cpp:168-168 | the first place of a window where the pattern stands |
| `RspMemory.ScanWindow` | tools/gdb_bridge/rsp_handler_memory.cpp:160-178 | a chunk behind its carry shows the lowest match, or the search goes on with the right carry and nothing missed |
| `RspMemory.ScanStep` | tools/gdb_bridge/rsp_handler_memory.cpp:155-179 | with a carry one byte short of the pattern no match at a chunk border is missed and the first hit is the lowest |
| `RspMemory.SearchMemory` | tools/gdb_bridge/rsp_handler_memory.cpp:132-181 | refused, or exactly what a plain scan of the range finds when no read failed or fell short, chunk borders and limits included; an error exactly when one did |
| `RspMemory.OneAnswer` | tools/gdb_bridge/rsp_handler_memory.cpp:132-181 | the lowest match, or that there is none, is one answer |
| `RspMemory.ListMaps` | tools/gdb_bridge/rsp_handler_query.cpp:39-46 | the regions that hold something, in order |
| `RspMemory.ProperCovers` | tools/gdb_bridge/rsp_handler_query.cpp:39-46 | the regions listed cover exactly the addresses the maps cover |
| `RspSession.Handler.EnsureAttached` | tools/gdb_bridge/rsp_handler.cpp:77-97 | attaches if need be, then with threads and maps of now; the session stays valid and the table as it is |
| `RspSession.Handler.SafeDetach` | tools/gdb_bridge/rsp_handler.cpp:51-73 | detached and emptied on success; on failure, which only a failed call brings, the table is unchanged |
| `RspSession.Handler.RefreshMaps` | tools/gdb_bridge/rsp_handler.cpp:104-115 | maps are known, and are the process's, exactly when the call did not fail, and are empty otherwise |
| `RspSession.Handler.ReportedSignal` | tools/gdb_bridge/rsp_handler_run.cpp:66-74 | the signal is that of the first listed entry of the stopped thread that has one, else a trap |
| `RspSession.Handler.AfterStop` | tools/gdb_bridge/rsp_handler_run.cpp:63-80 | the stopped thread becomes current, the signal is the one it reports or a trap, threads and maps are those of now |
| `RspSession.Handler.AfterInterrupt` | tools/gdb_bridge/rsp_handler_run.cpp:49-58 | the process is told to halt and the interrupt is reported with signal 2 |
| `RspSession.Handler.ResumeAt` | tools/gdb_bridge/rsp_handler_run.cpp:105-127 | an address becomes the program counter of the current thread and the registers with which it is started differ in nothing else; a step packet makes a thread step and a continue packet lets the process run; the answer is the stop, or an error for a malformed address or a failed call |
| `RspSession.Handler.ContinueOrStep` | tools/gdb_bridge/rsp_handler_run.cpp:21-83 | a step makes one thread step, the one named or else the current one, a continue lets the process run, with the registers it has; the answer is the stop reply, or an error with its reason |
| `RspSession.Handler.AwaitStop` | tools/gdb_bridge/rsp_handler_run.cpp:39-82 | the wait ends by an interrupt, by a thread that is said to have stopped and is then current, by detaching, or in an error after a failed call |
| `RspSession.Handler.Kill` | tools/gdb_bridge/rsp_handler_run.cpp:92-103 | a kill is refused for a pid up to one and for another process than the one attached; else that process is killed unless a call fails, and no session is left |
| `RspSession.Handler.SoftwareBreakpoint` | tools/gdb_bridge/rsp_handler_run.cpp:143-162 | what insertion and removal do to table, memory and traps, with an error only for a wrong length or a failed call; the table stays truthful exactly when nothing is inserted over a listed trap that shows another byte, and a strict backend refuses that |
| `RspSession.Handler.ClearHardware` | tools/gdb_bridge/rsp_handler_run.cpp:163-175 | the table stays truthful exactly when the call fails or the table lists nothing at the address |
| `RspSession.Handler.HardwareBreakpoint` | tools/gdb_bridge/rsp_handler_run.cpp:162-190 | which requests are refused and what the others make the backend do: hardware breakpoint, or a watch for writes, reads or both; the table stays truthful exactly when no listed trap is cleared |
| `RspSession.Handler.HandleBreakpoint` | tools/gdb_bridge/rsp_handler_run.cpp:129-191 | any breakpoint packet is answered, keeps the session valid, and the table truthful exactly when it fails or meets `Keeps`; with a strict backend exactly unless it is a successful `z1` at a listed address |
| `RspSession.Handler.VAttach` | tools/gdb_bridge/rsp_handler_run.cpp:193-223 | a stop reply and the session with the process asked for, or an error for a bad target or a failed call |
| `RspSession.Handler.HandleRead` | tools/gdb_bridge/rsp_handler_memory.cpp:23-65 | the reply is what the packet asks for unless a call fails; for any table it shows memory without breakpoints exactly when the table is accurate in the range |
| `RspSession.Handler.HandleWrite` | tools/gdb_bridge/rsp_handler_memory.cpp:67-97 | OK means that every byte was written, and comes for every admitted write unless a call fails; table and traps are left alone |
| `RspSession.Handler.HandleSearch` | tools/gdb_bridge/rsp_handler_memory.cpp:132-181 | the answer is the lowest match or that there is none, or the error the packet deserves, unless a call fails |
| `RspSession.Handler.HandleRegisters` | tools/gdb_bridge/rsp_handler_registers.cpp:15-121 | register packets keep the session valid and touch no other thread; each of the four is answered as it asks unless a call fails, and `G` and `P` store what they say |
| `RspSession.Handler.HandleSelect` | tools/gdb_bridge/rsp_handler.cpp:183-222 | exactly the selected thread changes and becomes the current one, while attached only to one the process has; every refusal has its reason in the packet unless a call fails |
| `RspSession.Handler.HandleAlive` | tools/gdb_bridge/rsp_handler.cpp:255-275 | OK exactly for a thread of this process that the backend lists, or for any while attached; the list is the process's unless a call fails |
| `RspSession.Handler.HandleThreadStop` | tools/gdb_bridge/rsp_handler_query.cpp:202-223 | a stop reply for the thread asked for exactly when the process has it, unless a call fails |
| `RspSession.Handler.HandleFetchMaps` | tools/gdb_bridge/rsp_handler_query.cpp:29-48 | the regions listed cover exactly what the maps of the process cover, asked for anew at the start; an error only for a failed call or no process |
| `RspSession.Handler.HandleFetchThreads` | tools/gdb_bridge/rsp_handler_query.cpp:51-73 | the threads with an id above zero are listed, asked for anew at the start, or the process itself if none is known |
| `RspSession.Handler.Handle` | tools/gdb_bridge/rsp_handler.cpp:161-278 | any packet and any pattern of failures keep the session valid: orderly history, table filled only since the current attach; every packet is answered as it asks unless a call fails or there is no process, and makes the backend do what it says and nothing else; the table stays truthful exactly when the packet fails or meets `Keeps`, with a strict backend exactly unless it is a successful `z1` at a listed address |
| `RspSession.Handler.HandleLeave` | tools/gdb_bridge/rsp_handler.cpp:245-254 | detach and kill are answered by what they did, and no session is left |
| `RspSession.Handler.HandleV` | tools/gdb_bridge/rsp_handler_run.cpp:193-288 | attach, kill and continue packets are answered as they ask unless a call fails; `vCont` makes the thread named step, or lets the process run |
| `RspSession.Handler.HandleQuery` | tools/gdb_bridge/rsp_handler_query.cpp:201-255 | searches, maps and thread queries are answered as they ask unless a call fails |
| `RspSession.Handler.ReadAmongBreakpoints` | tools/gdb_bridge/rsp_handler_memory.cpp:23-97 | in every run of reads, writes and breakpoint packets up to the first that spoils the table or writes over a breakpoint, each reply is that of a memory without breakpoints with the writes since the start; an error in its place means a failed call |
| `RspSession.Handler.HandleHarmless` | tools/gdb_bridge/rsp_handler_memory.cpp:23-97 | one such packet is answered from memory without breakpoints unless a call fails, and keeps table and that memory as they should be |
| `RspSession.Handler.ReadStaleEntry` | tools/gdb_bridge/rsp_handler_run.cpp:163-173 | after `Z0`, `z1` and a write at one address a read answers with the byte from before, right exactly when that was written; the run comes about whenever no call fails |
| `RspSession.Handler.WriteThenRead` | tools/gdb_bridge/rsp_handler_memory.cpp:50-97 | a write is read back exactly when the table lists no other byte in its range; both are answered when no call fails |
| `RspSession.Handler.SelectThenRead` | tools/gdb_bridge/rsp_handler.cpp:186-222 | `Hg` and `g`: the registers answered are those of the thread selected |
| `RspSession.Handler.SelectThenStep` | tools/gdb_bridge/rsp_handler.cpp:186-222 | `Hc` and a step: the thread selected is the one that steps |
| `RspSession.ReadIsRight` | tools/gdb_bridge/rsp_handler_memory.cpp:50-60 | masking by any table shows memory without breakpoints exactly when its entries are right and every trap it misses shows its byte |
| `RspSession.InsertTruthful` | tools/gdb_bridge/rsp_handler_run.cpp:145-155 | inserting keeps the table truthful exactly where nothing is listed or the trap shows the byte below |
| `RspSession.ClearTruthful` | tools/gdb_bridge/rsp_handler_run.cpp:170-172 | clearing a hardware breakpoint keeps the table truthful exactly where nothing is listed |
| `RspSession.StaleEntry` | tools/gdb_bridge/rsp_handler_run.cpp:145-173 | `Z0` then `z1` leaves an untruthful table that every read still sees right, until the byte is written |
| `RspSession.StaleReadDiffers` | tools/gdb_bridge/rsp_handler_run.cpp:145-173 | a concrete run whose reply is wrong |
| `RspSession.InsertTwice` | tools/gdb_bridge/rsp_handler_run.cpp:145-155 | where a backend accepts two insertions at one address, a read then shows the trap; the payload's backend refuses the second |
| `RspSession.AppliedTruthful` | tools/gdb_bridge/rsp_handler_run.cpp:143-175 | a breakpoint packet that succeeds keeps the table truthful if and only if it meets `Keeps` |
| `RspSession.AppliedShows` | tools/gdb_bridge/rsp_handler_run.cpp:143-175 | no breakpoint packet changes memory without breakpoints |
| `RspSession.Handler.Serve` | tools/gdb_bridge/rsp_handler.cpp:161-278 | every packet sequence, then the disconnect, keeps the session valid; with a strict backend one without `z1` keeps the table truthful |
| `GdbRegs.StoreThenRead` | tools/gdb_bridge/gdb_regs.cpp:105-246 | any of the 57 registers written is read back in the bytes it keeps, and every other reads as before |
| `GdbRegs.StoreWhatWasRead` | tools/gdb_bridge/gdb_regs.cpp:105-246 | writing back what was read changes nothing, with cs and ss below 2^32 |
| `GdbRegs.PacketField` | tools/gdb_bridge/gdb_regs.cpp:253-303 | a packet has 536 bytes and holds each register at its place |
| `GdbRegs.CoreLayout` | tools/gdb_bridge/gdb_regs.cpp:105-133 | the order of the core registers in a packet, seventeen of eight bytes and seven of four |
| `GdbRegs.FxsaveLayout` | tools/gdb_bridge/gdb_regs.cpp:168-246 | where a packet has the other registers and where the FXSAVE image has them |
| `GdbRegs.PacketRoundTrip` | tools/gdb_bridge/gdb_regs.cpp:253-341 | decoding an encoded packet onto the same state changes nothing if and only if cs and ss are below 2^32 |
| `GdbRegs.AppliedIsRead` | tools/gdb_bridge/gdb_regs.cpp:305-341 | after any packet is decoded each register reads as its field, and those it did not reach as before |
| `GdbRegs.ReadsTheSame` | tools/gdb_bridge/gdb_regs.cpp:278-341 | whatever both records hold, sending back the packet that was read leaves every register reading as it did |
| `GdbRegs.SentBack` | tools/gdb_bridge/gdb_regs.cpp:278-341 | and leaves both records as they were exactly when nothing had to be cut or filled up |
| `GdbRegs.WithRegisterReads` | tools/gdb_bridge/gdb_regs.cpp:135-246 | one register written reads as the bytes it keeps, whatever the record, and as zeros where there is none |
| `GdbRegs.WithRegisterKeeps` | tools/gdb_bridge/gdb_regs.cpp:29-34 | every other register reads as before exactly when completing a short record brings nothing to light |
| `GdbRegs.ShortRecordShows` | tools/gdb_bridge/gdb_regs.cpp:29-34 | with a record of one byte a write to a vector register changes what the control word reads as |
| `GdbRegs.Machine.EnsureFxsave` | tools/gdb_bridge/gdb_regs.cpp:29-34 | a short image is filled up with zeros to 512 bytes, a long one is left alone |
| `GdbRegs.Machine.GetSse` | tools/gdb_bridge/gdb_regs.cpp:168-182 | the bytes of the image; zeros when it is short |
| `GdbRegs.Machine.GetX87` | tools/gdb_bridge/gdb_regs.cpp:197-225 | the held bytes of the image, zero-extended; zeros when the image is short |
| `GdbRegs.Machine.SetX87` | tools/gdb_bridge/gdb_regs.cpp:227-246 | the record is completed and exactly the held bytes are overwritten |
| `GdbRegs.Machine.SetSse` | tools/gdb_bridge/gdb_regs.cpp:184-195 | the record is completed and exactly the bytes of the vector register or of mxcsr are overwritten |
| `GdbRegs.Machine.EncodePacket` | tools/gdb_bridge/gdb_regs.cpp:253-303 | the packet is the hexadecimal text of all registers in order, those that cannot be had as zeros |
| `GdbRegs.Machine.DecodePacket` | tools/gdb_bridge/gdb_regs.cpp:305-341 | accepted exactly when of the right length and hexadecimal throughout; then every register takes its field, or the core ones alone where there are no others |
| `GdbRegs.Machine.DecodeCore` | tools/gdb_bridge/gdb_regs.cpp:265-276 | accepted exactly when long enough and hexadecimal; then the core registers take their fields |
| `GdbRegs.ReadThenWrite` | tools/gdb_bridge/gdb_regs.cpp:253-341 | reading all registers and writing them back leaves every register reading as it did, and both records unchanged exactly under the stated condition |
| `RspRegisters.ReadAll` | tools/gdb_bridge/rsp_handler_registers.cpp:15-29 | `g` answers with the packet of the thread's registers, and with an error exactly when a call failed |
| `RspRegisters.WriteAll` | tools/gdb_bridge/rsp_handler_registers.cpp:31-61 | `G` stores every field, the core registers alone in the short form; other text changes nothing, no other thread changes, and any other error is a failed call |
| `RspRegisters.ReadOne` | tools/gdb_bridge/rsp_handler_registers.cpp:63-87 | `p` answers with the register named, its number cut to 32 bits, and with an error exactly for no such register or a failed call |
| `RspRegisters.WriteOne` | tools/gdb_bridge/rsp_handler_registers.cpp:89-121 | `P` stores that register and nothing else, or nothing at all, exactly for bad text or a failed call |
| `RspRegisters.WriteThenRead` | tools/gdb_bridge/rsp_handler_registers.cpp:63-121 | `P` then `p`: unless a call fails, the bytes the register keeps come back, zeros from one that cannot be had |
| `RspRegisters.SendBack` | tools/gdb_bridge/rsp_handler_registers.cpp:15-61 | `g`, then `G` with the reply: accepted unless a call fails, and every register reads as it did |
| `RspRegisters.SetProgramCounter` | tools/gdb_bridge/rsp_handler_run.cpp:85-90 | exactly the program counter of the thread changes |
| `Bits.PowerWitness` | src/tracer/memdbg_tracer.c:40-42 | what passes the bit test is a power of two |
| `Bits.AndMask` | src/tracer/memdbg_tracer.c:59-59 | masking with a power of two less one is the remainder |
| `TracerRing.RoundUp` | src/tracer/memdbg_tracer.c:227-233 | the bit smearing gives the least power of two that is large enough, or zero beyond 2^31 |
| `TracerRing.SmearDown` | src/tracer/memdbg_tracer.c:231-232 | the shifts set every bit below the top one |
| `TracerRing.Create` | src/tracer/memdbg_tracer.c:214-237 | a ring exists exactly for a pid above zero, memory enough, and size zero or sizes 2 to 2^31, with that capacity |
| `TracerRing.Ring.Push` | src/tracer/memdbg_tracer.c:56-68 | the entry goes last; when full only the oldest goes, through index wrap |
| `TracerRing.Ring.Advance` | src/tracer/memdbg_tracer.c:62-67 | head and tail show the right counts modulo 2^32 after a push |
| `TracerRing.Ring.Pop` | src/tracer/memdbg_tracer.c:70-81 | as many of the oldest entries as asked for and there are, in order, and the rest stay |
| `DaemonRing.ProducerKeeps` | src/tracer/memdbg_tracer_daemon.c:69-81 | every step of a push keeps the invariant, the tail store included, if its write is harmless and its head not too far ahead |
| `DaemonRing.ConsumerKeeps` | src/tracer/memdbg_tracer_daemon.c:83-93 | every step of a pop keeps the invariant |
| `DaemonRing.WriteKeeps` | src/tracer/memdbg_tracer_daemon.c:71-71 | a slot write keeps the events not taken if and only if the ring is not full or the same event is there |
| `DaemonRing.PoppedIsPrefix` | src/tracer/memdbg_tracer_daemon.c:69-93 | in every interleaving whose head is never more than 8192 ahead and whose slot writes are harmless the popped events are a prefix of the pushed ones |
| `DaemonRing.WriteIsSafe` | src/tracer/memdbg_tracer_daemon.c:69-93 | from every state of the protocol a slot write is harmless if and only if no run of the consumer behind it loses the prefix |
| `DaemonRing.SpoiledLoses` | src/tracer/memdbg_tracer_daemon.c:83-93 | wherever the consumer is, after a harmful write it can pop a wrong event by itself, the indices never more than 8192 apart |
| `DaemonRing.RoomyIsPrefix` | src/tracer/memdbg_tracer_daemon.c:69-93 | without a slot write while the indices are 8192 apart the prefix holds |
| `DaemonRing.FullRingLosesOldest` | src/tracer/memdbg_tracer_daemon.c:69-93 | a run whose published indices are never more than 8192 apart and whose popped events are no such prefix |

## Left out

- JSON floats: their text is read and kept, their value is not; reading and writing values depends on IEEE rounding and the C library, so the text and round trip are for float-free trees.
- JSON `ascii_only` and `sort_keys`, `json_path`, `json_clone` and the typed getters.
- Duplicate object keys: scan and search may then find different pairs; objects here start with distinct keys.
- The arena's blocks: it hands out memory some number of times and then fails; trees are values, not linked nodes, so sharing of nodes is not captured.
- JsonWriter.Write: a buffer that is not null and has no byte at all is not admitted: the room test of the source underflows on it and the first byte is stored out of bounds.
- JsonObject.Object.Get: takes a sorted object of fewer than 2^31 pairs, as the search bounds are signed 32-bit numbers that overflow beyond.
- JsonObject.Object.Search: as JsonObject.Object.Get.
- JsonObject.Object.Finalize: takes at most 2^31 pairs, for the sake of the heap sort.
- JsonObject.Object.SortIndex: as JsonObject.Object.Finalize.
- JsonObject.Object.Replay: takes fewer than 2^31 pairs and operations together, so that every get and finalize may come at any time.
- JsonObject.Object.Perform: as JsonObject.Object.Get.
- JsonSort.SiftOnce: takes heaps of at most 2^31 entries, beyond which the 32-bit child index wraps.
- JsonSort.SiftDown: as JsonSort.SiftOnce.
- JsonSort.HeapSort: as JsonSort.SiftOnce.
- JsonSort.ExtractMaximum: as JsonSort.SiftOnce.
- JsonSort.IntroSort: takes ranges of at most 2^31 entries for the same reason.
- Lz4Decoder.NarrowDecodeIsDecode: stops at 16 MiB of compressed input, where the source's 32-bit length counters could wrap; `DecompressSafe` itself is exact for every input, wrap included.
- LZ4 pointer arithmetic: the search loop may compute a pointer past the last position it reads; only positions that are read appear in the model. Null pointers are not modelled.
- Packet text: handlers take their arguments as read, with malformed text as a case of its own at the place where the source finds it; of the text only hexadecimal numbers are modelled. Thread ids, `qXfer` slicing, XML and the wording of stop reasons are not.
- RspSession.Handler.ContinueOrStep: a wait that never ends is not a run; after some number of rounds the bridge shuts down.
- RspSession.Handler.HandleFetchMaps: lists the regions; their spelling in XML and the slice of it a packet asks for are not modelled.
- RspSession.Handler.HandleQuery: names of threads, thread information, libraries and the program's path are answered, but their text is not modelled.
- Sockets: the byte stream is what will arrive, followed by silence or the end of the connection; acknowledgements count as sent even if the write fails, as the source ignores that; timeouts, signals and the shutdown file are plumbing.
- The daemon ring once the producer overtakes the consumer: both threads then store the tail; runs stay within 8192 of each other here.
- Tracer statistics, crash dumps, ptrace, telemetry, platform layers, user interfaces and build tools.
