# A model of the repository's script algorithms

The repository tests a Mojo HTTP server with a set of Python scripts. The server itself is not modelled here.
What is modelled is the deterministic core of the scripts: the code that decides what a probe, a guard or a
packaging step believes. Each of these pieces is an algorithm over unbounded input with state that spans
calls, and a quiet mistake in one of them would make a check pass that should fail. The properties proved are
the ones the scripts rely on.

- **Chunked decoders** (`Chunked`, `ChunkLines`, `Network`, `BenchBlobsModes`, `DechunkOnward`,
  `ChunkedKeepalive`, `DemoProbe`, `DrainStreamProbe`, `DrainEndings`, `RefusedTails`). Four independent readers
  of the chunked coding of section 7.1 of RFC 9112. Each is a class or a set of methods over the source's own
  fields, proved against a function of the bytes. The main results: what comes out does not depend on how the
  network slices the bytes, decoding inverts encoding, nothing behind a body is lost, and at every cut of every
  message the four readings are ordered (whole chunks, whole data, every byte) and agree on chunk boundaries.
- **Heads, responses and the fingerprint** (`TextMeans`, `HeaderLines`, `Responses`, `ResponseHeads`,
  `Fingerprint`). Header lines read back whatever their letters and blanks, tokens for every truncation of a
  response stream, a resumable parser, and the injectivity of the bytes a digest is fed.
- **Type text and layout** (`LlvmTypes`, `CopybackGuard`, `CopybackTyped`, `Layout`, `LayoutText`,
  `LayoutTight`). LLVM's printed types are uniquely readable, so a substring test on text is an exact test on
  types; and measuring a type's text is measuring the type, whose fields lie apart, in order and aligned, as
  tightly as their alignments allow.
- **Binary formats** (`Binary`, `MachO`, `MachOFiles`, `Elf`, `ElfFiles`, `ElfBuild`). Both readers find what a
  file says, in either byte order, from a description of its bytes; the Mach-O parser also undoes the assembler,
  and the ELF reader a small builder.
- **Closures on graphs** (`CitationScan`, `CitationText`, `Citations`, `BundleArtifact`, `BundleNeeds`). RFC
  succession by depth-first search and by worklist, and the libraries that travel with an artifact: exact least
  closures, on cyclic graphs too.
- **A bounded resume protocol** (`AutobahnRunner`, `VerdictRules`, `WstestModel`). A section driven against an
  arbitrary test runner, with the verdicts compared against the pinned ones.
- **Lexing, names and outlines** (`CodeOnly`, `ShellText`, `CodeOnlyText`, `Ordering`, `BenchNames`,
  `BlobsProbe`, `OutlineMeans`). A shell lexer that shows of any text exactly its code and keeps line numbers,
  newest-by-name selection, and cyclic sums over polygons.

A reader and what it is said to read are kept apart: `ShellText`, `HeaderLines`, `ChunkLines`, `BundleNeeds`,
`MachOFiles` and their like say what texts and files mean without the functions that read them, and the results
tie the two together.

A byte string is a `string` with one character a byte (latin-1, as the scripts decode heads); the binary
formats use a byte type of their own. An exception is a `None`, an `Err` or a stop reason. The network is an
arbitrary list of non-empty pieces; the file system, the fetcher, the runner and the server under test are
arbitrary functions.

## Where the code and its documentation differ

- `code_only` says that line structure is kept. One newline too many comes out when the last line of the body
  belongs to a here-document and has no newline (`CodeOnly.LinesKept`, `CodeOnly.LastLineAdded`).
- `lint` reports a `[[` that opens a line one line early, because the newline before it is part of the match
  (`CodeOnly.DoubleBracketLine`, `CodeOnly.DoubleBracketOneEarly`).
- `check_bench_kinds_do_not_shadow` says a stamp sorts below every letter, so the intruder wins. That is so
  for a suffix that begins with a letter. In general the first place where the suffix, closed by a dash,
  differs from the date, closed by its `T`, decides: one that begins with a dash never wins, and `2x` does
  although it begins with the year's first digit (`BenchNames.IntruderWins`, `BenchNames.EqualDigitWins`).
  `_bench` is right exactly when no artifact of a longer kind sorts above the newest of its own
  (`BenchNames.BenchRightExactly`).
- `collect` says `unknown` lists cited numbers. It also lists a successor nothing cites; it holds cited
  numbers only exactly when every successor an entry names is cited or has a document
  (`Citations.UnknownCitedExactly`, `Citations.UnknownNeedNotBeCited`).
- `size_align` gives a vector its own size as alignment. Whatever is built over a vector is aligned at every
  depth exactly when that size is a power of two (`Layout.RegularExactly`, `Layout.IrregularMisplaces`).
- `Dechunk` reads on after a zero chunk in the next call but not in the same one. What follows a message
  makes no difference to any slicing exactly when it is quiet (`DechunkOnward.SlicingFreeExactly`); a second
  message is so exactly when it has no chunks (`DechunkOnward.TwoMessages`), a trailer that reads as no size
  never is (`DechunkOnward.TrailerRaises`).

## Model

| member | source | states |
|---|---|---|
| Chunked.ReadingsOrdered | scripts/demo_probe.py:184-192 | at every cut, whole chunks only is a prefix of whole data only, which is a prefix of every byte delivered, which is a prefix of the payload |
| Chunked.ReadingsAgreeOnBoundary | scripts/demo_probe.py:184-192 | on a chunk boundary the three readings of what has arrived are one |
| Chunked.PlainChunkWellFormed | scripts/bench_blobs_modes.py:126 | the size line `%x` writes is among those the decoders read as the length of the data |
| ChunkLines.SizeLineExactly | scripts/bench_blobs_modes.py:126 | a line is read as a size if and only if it is blanks, zeros, that number's hexadecimal numeral in any letters, blanks, and perhaps an extension; any other is refused |
| BenchBlobsModes.Dechunk.Feed | scripts/bench_blobs_modes.py:115-133 | one call moves buffer and open length exactly as decoding old buffer plus new data does, returns what that decodes, and answers None where `int` raises; the loop ends |
| BenchBlobsModes.DecodeSplit | scripts/bench_blobs_modes.py:115-133 | for any bytes, decoding a buffer and more is decoding the buffer, then what it left with the rest, until a zero chunk or an unreadable size ends the call |
| BenchBlobsModes.DecodeCut | scripts/bench_blobs_modes.py:118-132 | a message cut anywhere: exactly the payload bytes that have arrived come out, and the call ends exactly when the zero chunk's line is whole |
| BenchBlobsModes.FeedSlices | scripts/bench_blobs_modes.py:115-133 | a decoder object fed slice after slice gives the answers of the slice-by-slice function, each slice on top of the state the one before left |
| BenchBlobsModes.AnySlicing | scripts/bench_blobs_modes.py:107-133 | for every list of chunks and every slicing of the message no call raises, the outputs concatenate to the payload, and after each call exactly the payload that has arrived has come out |
| DechunkOnward.TerminatorCut | scripts/bench_blobs_modes.py:126-128 | a call that ends at a zero chunk has read everything before what it leaves, and would have returned the same without the rest |
| DechunkOnward.QuietSlices | scripts/bench_blobs_modes.py:115-133 | quiet bytes give nothing and raise nothing however they are sliced, empty slices included |
| DechunkOnward.SlicingFreeExactly | scripts/bench_blobs_modes.py:115-133 | chunks, a zero chunk and any bytes behind them come out the same under every slicing if and only if those bytes are quiet: decoded on, zero chunk after zero chunk, they give nothing and raise nothing |
| DechunkOnward.TwoMessages | scripts/bench_blobs_modes.py:124-128 | two messages: every slicing gives the same if and only if the second has no chunks; in one call the second is never reached, cut behind the first zero chunk it comes out whole |
| DechunkOnward.TrailerRaises | scripts/bench_blobs_modes.py:124-128 | a trailer that reads as no size is never reached in one call and raises in a later one |
| ChunkedKeepalive.Reader.Fill | scripts/chunked_keepalive.py:53-57 | buffered plus unread bytes stay what they were; at the end of the stream nothing is unread |
| ChunkedKeepalive.Reader.Line | scripts/chunked_keepalive.py:59-63 | the line, or the end-of-stream error, is a function of the bytes remaining, however they are sliced, and exactly the line and its CRLF are consumed |
| ChunkedKeepalive.Reader.Exact | scripts/chunked_keepalive.py:65-69 | likewise the next n bytes: no more and no fewer are consumed, and none when too few will ever arrive |
| ChunkedKeepalive.ReadHead | scripts/chunked_keepalive.py:72-81 | status and header map, names trimmed and lowered, the last of a name winning, and the bytes left, are functions of the bytes remaining |
| ChunkedKeepalive.HeadRead | scripts/chunked_keepalive.py:72-81 | for any header lines, names and values with blanks about them: the map read has exactly the names sent, in lower case, each with the value of the last line of that name, and the bytes behind the head are left |
| ChunkedKeepalive.LookedUp | scripts/chunked_keepalive.py:80 | a name is found under its lower-case form however its letters were written, and no other name is |
| HeaderLines.EveryLine | scripts/chunked_keepalive.py:76-80 | every line there is is such a header, with a colon or without |
| ChunkedKeepalive.ReadChunkedBody | scripts/chunked_keepalive.py:84-100 | body or error and the bytes left are a function of the bytes remaining, however sliced: size, data, the CRLF check and the trailers |
| ChunkedKeepalive.BodyRead | scripts/chunked_keepalive.py:84-100 | decoding inverts encoding for any chunks, trailers and following bytes: the payload is returned and exactly the following bytes are left |
| ChunkedKeepalive.Exchange | scripts/chunked_keepalive.py:125-174 | the verdict on both requests and the bytes left are a function of everything that will arrive, however sliced: status, framing, no length, body length, second status, and the second body read whole |
| ChunkedKeepalive.PassesExactly | scripts/chunked_keepalive.py:125-174 | the verdict on two answers is what was sent deserves: passed if and only if the first says 200, is chunked by its last transfer-encoding in any letters and carries no length, with the expected number of bytes, and the second says 200; otherwise the first of these that fails; on a pass exactly the bytes behind both are left |
| ChunkedKeepalive.ReaderRefinesDechunk | scripts/chunked_keepalive.py:84-100 | on any bytes on which the pull reader finds a body, `Dechunk` finds the same body and stops at the same zero chunk |
| RefusedTails.PullEnds | scripts/chunked_keepalive.py:84-100 | behind any number of whole chunks: a line that names no size, data that no CRLF follows, and the end of the stream in a line, in data or before the trailers end, each with its own error |
| DemoProbe.Stream.Decode | scripts/demo_probe.py:178-192 | the bodies fed grow by exactly the whole chunks of the wire buffer, which keeps the rest; an unframed stream is fed as it is |
| DemoProbe.Stream.DecodeChunked | scripts/demo_probe.py:184-192 | the decoding loop as a whole: what it feeds, what it leaves and why it stops |
| DemoProbe.Stream.Feed | scripts/demo_probe.py:194-196 | one body more has been handed to the event parser |
| DemoProbe.Stream.Receive | scripts/demo_probe.py:218-219 | arriving bytes are appended and everything they complete is fed |
| DemoProbe.WholeChunksSplit | scripts/demo_probe.py:178-192 | for any bytes, decoding a buffer and later bytes is decoding the buffer, then what it left with the later bytes; a failure stays the same failure |
| DemoProbe.WithheldUntilWhole | scripts/demo_probe.py:189-190 | nothing of a chunk is fed before its closing CRLF has arrived, and nothing of it is lost |
| DemoProbe.WholeChunksCut | scripts/demo_probe.py:178-192 | a message cut anywhere: exactly the whole chunks are fed, in order, and the stream fails exactly when the terminating chunk's line has arrived |
| DemoProbe.ReceivePieces | scripts/demo_probe.py:213-219 | the stream object handed piece after piece feeds what the piece-by-piece function says |
| DemoProbe.AnySlicing | scripts/demo_probe.py:213-219 | for any byte stream, well formed or not, what has been fed and why the stream stopped do not depend on the slicing |
| DemoProbe.RefinesDechunk | scripts/demo_probe.py:178-192 | at every cut of a message the output is a prefix of `Dechunk`'s, equal on chunk boundaries, and both end at the same byte |
| RefusedTails.HeldEnds | scripts/demo_probe.py:184-192 | behind any number of whole chunks, all of which are fed, an unreadable size, a zero chunk or a part stays in the buffer and stops the stream for that reason |
| DrainStreamProbe.Reader.Fill | scripts/drain_stream_probe.py:45-62 | buffered plus unread bytes stay what they were; at the end the end is remembered and all that is left is buffered |
| DrainStreamProbe.Reader.Line | scripts/drain_stream_probe.py:64-70 | the line or None is a function of the bytes remaining; on None everything left is in the buffer |
| DrainStreamProbe.Reader.Take | scripts/drain_stream_probe.py:72-78 | the next n bytes or None, likewise |
| DrainStreamProbe.NextChunk | scripts/drain_stream_probe.py:84-111 | data, terminator, end or failure, and the bytes left, are a function of the bytes remaining, however sliced |
| DrainStreamProbe.ReadToEnd | scripts/drain_stream_probe.py:138-145 | the loop returns every chunk up to the first answer that is no data, and that answer |
| DrainStreamProbe.TruncationRead | scripts/drain_stream_probe.py:84-111 | every cut of every message: the chunks all of whose data arrived are returned in order, the terminator is seen exactly when its line is whole, and the stream is called broken exactly at the cuts whose tail could not begin a size |
| DrainStreamProbe.BrokenCutIff | scripts/drain_stream_probe.py:90-94 | without chunk extensions those cuts are exactly the ones between a framing CR and its LF |
| DrainStreamProbe.ColonRefused | scripts/drain_stream_probe.py:84-99 | bytes that begin with a colon where a size belongs are refused, with a CRLF behind them or without |
| DrainStreamProbe.ColonBehindChunks | scripts/drain_stream_probe.py:84-111 | the same behind any number of whole chunks, all of which are still returned |
| DrainEndings.StreamEnds | scripts/drain_stream_probe.py:84-111 | behind any number of whole chunks, all of which are returned, the stream ends as its tail says: clean at a part of a size or of data, the terminator with an empty line or none behind it, and broken at anything else, for its own reason |
| DrainStreamProbe.BetweenHeldAndPush | scripts/drain_stream_probe.py:84-111 | at every cut the strict reader's output lies between the held stream's and `Dechunk`'s, and on a chunk boundary the three are one |
| DrainStreamProbe.StrictRefinesDechunk | scripts/drain_stream_probe.py:84-111 | on any bytes at all `Dechunk` puts out every chunk the strict reader returns; the same and no more at a terminator, where both stop; and it is left hungry where the reader sees a clean end |
| Fingerprint.Hashed | scripts/differential_probe.py:111-124 | the bytes fed to the digest, field by field, are the pre-image of the request |
| Fingerprint.FieldsWritten | scripts/differential_probe.py:116-117 | a field is its length in decimal, a colon and itself |
| Fingerprint.FieldUnique | scripts/differential_probe.py:116-117 | a length-prefixed field is read off the head of a text in one way only, whatever follows |
| Fingerprint.PreimageInjective | scripts/differential_probe.py:111-124 | two requests hash the same bytes if and only if target, protocol and the ordered headers agree, names up to ASCII case |
| Responses.ReadResponses | scripts/differential_probe.py:140-173 | the index walk ends on every stream and returns one token for each response as read off the stream |
| Responses.WalkIsTokens | scripts/differential_probe.py:142-144 | walking one index along the stream is reading shorter and shorter streams |
| Responses.TokensCut | scripts/differential_probe.py:140-173 | every truncation of a stream of framed responses: a token each for the whole ones, in order, and one PARTIAL exactly when the cut is inside a response |
| Responses.TokensWhole | scripts/differential_probe.py:140-173 | the whole stream gives one token a response and nothing else |
| ResponseHeads.HeadIsRead | scripts/differential_probe.py:149-158 | a status line with a reason or without, and any header lines: the status is the code, the length that of the last Content-Length, its name in any letters and blanks about its value; to `parse`, unreadable where any declared length is |
| ResponseHeads.ReplyRead | scripts/differential_probe.py:149-173 | a reply that says how long it is, however its head is written, is split off whole, as interim if its code begins with 1 and with its code and body otherwise |
| ResponseHeads.RepliesRead | scripts/differential_probe.py:140-173 | a stream of such replies gives those tokens, in order, and nothing else |
| ResponseHeads.LastRead | scripts/differential_probe.py:164-172 | a last reply without a length has all that follows for its body; one whose length is no number, negative or more than there is is PARTIAL |
| ResponseHeads.NoCode | scripts/differential_probe.py:150-151 | a status line of one word is `?` to `responses`, and no number to `parse` |
| Responses.ParseResponses | scripts/body_timeout_probe.py:100-121 | the loop returns the answers and the rest of the recursive reading of the same bytes |
| Responses.LengthsAgree | scripts/body_timeout_probe.py:112-116 | `parse` and `responses` read the same length where every declared one is a number; where one is not, `parse` raises whatever is declared behind it |
| TextMeans.ParseIntExactly | scripts/body_timeout_probe.py:116 | a declared value is read as a number if and only if, blanks aside, it is that number written out: a sign perhaps, and digits |
| TextMeans.ZerosBefore | scripts/body_timeout_probe.py:116 | digits are the number they name, with zeros before them or none |
| Responses.UnreadableRaises | scripts/body_timeout_probe.py:107-116 | a head with a readable status and any unreadable length makes `parse` raise, with nothing taken off |
| ResponseHeads.ReplyParsed | scripts/body_timeout_probe.py:107-120 | a reply whose code is a numeral and whose lengths are all numbers is one of those `parse` takes off, with the number the code names and its body |
| ResponseHeads.RepliesParsed | scripts/body_timeout_probe.py:100-121 | a stream of such replies is taken off whole, in order, and nothing is left |
| ResponseHeads.FirstRefused | scripts/body_timeout_probe.py:108-118 | nothing is taken off where the code is no numeral, then where a length is no number, then where it is negative |
| Responses.ParseResumes | scripts/body_timeout_probe.py:100-121 | on any bytes, parsing `a + b` is parsing `a`, then what it left followed by `b`; a raise stays the same raise |
| Responses.ParseCut | scripts/body_timeout_probe.py:100-121 | however much has arrived, exactly the whole responses are taken off, in order, and exactly the bytes behind them are left |
| Responses.WholeAndLeft | scripts/body_timeout_probe.py:119-120 | the responses taken off and the bytes left are, put together, the bytes that arrived |
| LlvmTypes.PrintUnique | scripts/copyback_guard.py:225-229 | a printed type at the head of a text is read off it in one way only |
| LlvmTypes.PrintInjective | scripts/copyback_guard.py:309-312 | two types print alike if and only if they are one type |
| CopybackGuard.InlineTestExact | scripts/copyback_guard.py:311-313 | a printed struct is a substring of a printed type if and only if it is a node nested in it, also behind text without braces |
| CopybackGuard.AggregateOfParam | scripts/copyback_guard.py:225-229 | the aggregate cut out of a by-value struct parameter is exactly its type's text, whatever the attributes |
| CopybackGuard.NoAggregate | scripts/copyback_guard.py:225-229 | a parameter that is no struct has no aggregate |
| CopybackGuard.Copies | scripts/copyback_guard.py:294-315 | the findings, in order, and: a finding is listed if and only if some parameter of some function gives it |
| CopybackGuard.CopyOfTyped | scripts/copyback_guard.py:303-314 | in terms of types: reported as the type itself iff it is one of them and the symbol names it, as holding it inline iff not one of them but one is nested in it, stored back iff the result type holds it |
| CopybackTyped.MentionsExactly | scripts/copyback_guard.py:232-233 | a symbol mentions a name if and only if it is that name with something before and behind it that no word goes on in |
| TextMeans.WordMeans | scripts/copyback_guard.py:233 | the characters of a word are the letters, the digits and the underscore |
| CopybackTyped.CopiesTyped | scripts/copyback_guard.py:294-315 | the findings on any functions, in terms of their types and names alone: a parameter is reported if and only if it is one of the structs in a function of that name, or only holds one |
| CopybackTyped.WrittenTypes | scripts/copyback_guard.py:261-283 | types as the IR writes them |
| Layout.RoundUpIs | scripts/copyback_guard.py:271 | rounding gives the first multiple of the alignment at or above |
| Layout.FieldPlaced | scripts/copyback_guard.py:268-272 | each field starts at a multiple of its alignment, behind the one before it, and ends within the running size, whose alignment is no smaller |
| Layout.StructLaidOut | scripts/copyback_guard.py:266-273 | fields of a struct are aligned, in order, apart and inside it; its size is a multiple of its alignment, which is no smaller than a field's |
| LayoutTight.StructTight | scripts/copyback_guard.py:266-273 | the layout is the tightest there is: each field at the first multiple of its alignment there is room at, the struct up to the first multiple of its own, which is the largest of its fields' |
| Layout.AlignPower | scripts/copyback_guard.py:274-282 | with vectors of power-of-two size every alignment is a power of two and divides its size |
| Layout.NestedLaidOut | scripts/copyback_guard.py:261-283 | then a node at any depth, through structs and arrays, starts at a multiple of its own alignment and lies inside the whole |
| Layout.NestedFits | scripts/copyback_guard.py:261-283 | with any vectors, a type is never smaller than a node in it |
| Layout.IrregularMisplaces | scripts/copyback_guard.py:278-282 | every vector whose size is no power of two misplaces something: a vector of bytes behind it, of the largest power of two below its size, in a struct behind a byte |
| Layout.RegularExactly | scripts/copyback_guard.py:261-283 | everything built over a vector and vectors of power-of-two size has all its nodes aligned if and only if the vector's own size is a power of two |
| Layout.MeasuredExactly | scripts/copyback_guard.py:268-282 | any type is measured, and not divided by zero, if and only if no struct in it has a field without alignment |
| LayoutText.SplitTopLevel | scripts/probes/mut_copyback_matrix.py:444-456 | the loop with its depth counter gives the parts of the recursive scan |
| LayoutText.ScanType | scripts/probes/mut_copyback_matrix.py:444-456 | a printed type is gathered whole: its own commas stand inside its brackets |
| LayoutText.StructSplits | scripts/copyback_guard.py:267-269 | the inside of a printed struct splits into exactly its fields' texts |
| LayoutText.SizeAlign | scripts/copyback_guard.py:261-283 | the recursive measurement of a text, field loop included, or None where the source raises |
| LayoutText.MeasureIsMeasured | scripts/copyback_guard.py:261-283 | measuring a printed type is measuring the type, for any type: trimming, matching and splitting lose nothing |
| LayoutText.MeasureIsExtent | scripts/copyback_guard.py:261-283 | so where every vector has elements it is the extent the layout results are about |
| LayoutTight.KnownSizes | scripts/copyback_guard.py:257-258 | the sizes and alignments of the nine scalars, by their texts |
| LayoutTight.CountedRead | scripts/copyback_guard.py:274-280 | brackets, digits, an x between blanks and something on the same line are matched as the number and that |
| LayoutTight.ReadCounted | scripts/copyback_guard.py:274-280 | and nothing else is matched |
| CitationScan.FindCitations | scripts/check_citations.py:120-145 | every citation the pattern matches, in order, with its line and the RFCs of its paragraph, the run of non-blank lines around it |
| CitationScan.CiteFound | scripts/check_citations.py:86 | a number of three to five digits written behind RFC is found wherever it stands between words, whatever else the line cites |
| CitationScan.ParagraphNumbers | scripts/check_citations.py:132-136 | what is gathered between blank lines is what every line of the paragraph has near it |
| CitationText.CitesAreThose | scripts/check_citations.py:86 | the numbers found on a line are those that stand on it, RFC in any letters, perhaps a space or a dash and three to five digits as a word of its own: each at its place, in order, and none missed |
| CitationText.CitationsOfText | scripts/check_citations.py:120-145 | what is found in a text is exactly what stands on its lines, each with its line's number and the numbers cited in its run of lines that are not all blank, line after line |
| Citations.Visit | scripts/check_citations.py:190-197 | a recursive call adds to the shared set only numbers that succeed its own, closed but for what was there, and ends on a cycle |
| Citations.Successors | scripts/check_citations.py:190-197 | exactly the RFCs reachable by one or more steps, on any graph |
| Citations.CheckHit | scripts/check_citations.py:218-238 | the failure of a citation: no entry, or obsolete with no transitive successor named in its paragraph |
| Citations.Reachable | scripts/check_citations.py:240-242 | the cited numbers and all their successors |
| Citations.CheckEntry | scripts/check_citations.py:243-254 | the failures of an entry, in order: outside the warranted set, and each successor without an entry |
| Citations.CheckCitations | scripts/check_citations.py:202-255 | the failures, file by file and then entry by entry in the order of numbers, and: a failure is listed if and only if the four documented rules say so |
| Citations.FailuresAreThose | scripts/check_citations.py:202-210 | the list in its order holds exactly the failures of the four rules |
| Citations.Collect | scripts/check_citations.py:314-334 | ends on any graph over a finite universe with exactly the wanted documents as fetched and exactly the wanted numbers there is no document for; it stops early only where a wanted fetch raises |
| Citations.CollectedReaches | scripts/check_citations.py:314-334 | on what was collected, the snapshot and the RFC Editor agree on what succeeds what |
| Citations.CollectedSnapshotPasses | scripts/check_citations.py:243-254 | over a snapshot collected for the same citations no entry is uncited, and an entry or successor is missing if and only if some wanted number is unknown |
| Citations.UnknownCitedExactly | scripts/check_citations.py:314-334 | `unknown` holds cited numbers only if and only if every successor an entry names is cited or has a document |
| Citations.UnknownNeedNotBeCited | scripts/check_citations.py:317-318 | a collection whose `unknown` holds a number nothing cites |
| Citations.LiveDiff | scripts/check_citations.py:337-364 | a difference is listed if and only if the rules say so, in the order of numbers and one an entry: could not ask iff the fetch raises; no such document iff it finds none; successors changed iff the recorded list is not the document's, in ascending order; status changed iff they agree and the statuses differ |
| Citations.SortedExactly | scripts/check_citations.py:186 | successors are the document's numbers, each as often, in ascending order, and no other list is |
| Citations.EntryRecords | scripts/check_citations.py:181-187 | an entry is the document's if and only if title and status are its own and the successors its numbers in order |
| Citations.CollectThenDiff | scripts/check_citations.py:314-364 | a snapshot compared with the answers it was collected from differs in nothing |
| MachO.ParseMachO | scripts/binfmt.py:155-194 | the loop over load commands gives the recursive reading, or the same refusal |
| MachO.CommandRead | scripts/binfmt.py:170-192 | an assembled command, wherever it stands, is read as what it is, and the next one is found behind its padding |
| MachO.VersionDecoded | scripts/binfmt.py:197-200 | any packed version is decoded to its three numbers, the patch dropped when it is zero |
| MachOFiles.FileRead | scripts/binfmt.py:155-194 | any thin file, in either byte order and word size, whatever its commands, padding and string offsets: search paths and dependencies in order, the last install name, and the last version it was built for, or the first oldest system where there is none |
| MachOFiles.CommandRefused | scripts/binfmt.py:167-172 | behind any commands, one that runs past the end, or whose size no command can have, is refused as such |
| MachOFiles.ByteOrders | scripts/binfmt.py:169 | the two byte orders |
| MachO.ParseUndoesAssemble | scripts/binfmt.py:319-359 | for any list of dylib, weak, reexport, id, rpath and build-version commands with zero-free names: search paths and dependencies in order, the install name iff there is an id command, the last version packed |
| MachO.RefusedByMagic | scripts/binfmt.py:133-139 | whatever its load commands, a file is refused as fat if and only if it has a fat magic, and as no Mach-O if and only if it has none of the six |
| Elf.SegmentsOf | scripts/binfmt.py:256-266 | the header loop gives the dynamic segment and the loaded ones, or a short read |
| Elf.TagsOf | scripts/binfmt.py:278-286 | the entry loop gives the entries up to the first null one or the section's end |
| Elf.InfoOf | scripts/binfmt.py:295-303 | the collecting loop gives what the entries add one after another |
| Elf.FileOffsetIs | scripts/binfmt.py:270-274 | an address is resolved through the first loaded segment that holds it, and refused iff none does |
| Elf.InspectElf | scripts/binfmt.py:233-303 | the whole reader, refusals included, is the function of the bytes the results are about |
| Elf.InspectFinds | scripts/binfmt.py:233-303 | in either byte order and wherever the string table's address stands among the entries: every needed name in order, the last soname, the non-empty search paths |
| ElfFiles.PathsAre | scripts/binfmt.py:301-302 | search paths are the parts between colons, in order, the empty ones left out |
| ElfFiles.RefusedByMagic | scripts/binfmt.py:235-236 | a file is refused as no 64-bit ELF if and only if its first five bytes say so |
| ElfFiles.NoDynamicSegment | scripts/binfmt.py:267-268 | headers without a dynamic segment are refused for that |
| ElfFiles.NoTable | scripts/binfmt.py:274-289 | entries without a string table, or with one at an address no loaded segment holds, are refused for that |
| ElfBuild.BuiltIsDescribed | scripts/binfmt.py:233-303 | a file built for any list of names, in either byte order, is one the reader's results speak of |
| ElfBuild.BuiltIsRead | scripts/binfmt.py:233-303 | reading undoes building: the names come back in order, whatever the null entry's value |
| BundleArtifact.AddDepShrinks | scripts/bundle_artifact.py:173-192 | each copy leaves one library fewer to copy and anything else leaves the queue alone: what ends the loop on a cycle |
| BundleArtifact.VisitFile | scripts/bundle_artifact.py:173-192 | going through one file settles all its dependencies, or stops at one the artifact cannot do without; copied names stay distinct and reached |
| BundleArtifact.Bundle | scripts/bundle_artifact.py:163-207 | the worklist ends with a closed bundle, or a file that travels and cannot be read, or a dependency that is missing, or the refusal to ship a bundle with nothing in it |
| BundleArtifact.Least | scripts/bundle_artifact.py:166-192 | any set that holds what the roots pull in and what its own libraries pull in holds everything reached |
| BundleArtifact.ClosedIsLeast | scripts/bundle_artifact.py:166-192 | a finished bundle holds exactly the libraries reachable from a root, each once; every dependency of a bundled file is bundled, or absent from the toolchain and, for Mach-O, not looked for beside it |
| BundleArtifact.BundleExactly | scripts/bundle_artifact.py:163-207 | which outcome there is follows from the graph: a bundle iff every file that travels can be read and lacks nothing it must have, and not an empty one for roots that reach out |
| BundleNeeds.BaseOf | scripts/bundle_artifact.py:174 | the last part of a path is what stands behind its last slash |
| BundleNeeds.SpeltIs | scripts/bundle_artifact.py:174-199 | a recorded name is the library and the place it is looked for: beside the file, along the search path, in a directory of the platform's or another, or bare |
| BundleNeeds.BundleSpelt | scripts/bundle_artifact.py:163-216 | in terms of needs: a bundle is made if and only if every file in it can be read and every need is met, and it then holds exactly the libraries some chain of needs leads to from a root, each once; a Mach-O bundle of nothing whose roots need something is refused |
| AutobahnRunner.DriveSection | scripts/autobahn_runner.py:190-246 | the loop is the recursive protocol, evidence and resume notes included, and never falls through its end |
| AutobahnRunner.AttemptsBounded | scripts/autobahn_runner.py:205-206 | at most RESUMES + 1 attempts, each given exactly the ids scored before it |
| VerdictRules.FourAttempts | scripts/autobahn_runner.py:152-231 | four attempts at most, and still thin only after the fourth |
| AutobahnRunner.PassesExactly | scripts/autobahn_runner.py:190-246 | a section passes if and only if some attempt within the limit reaches the count, scores nothing twice, and every attempt before it was a dropped connect with the server well; the result is then all attempts' verdicts |
| AutobahnRunner.MergedOnce | scripts/autobahn_runner.py:207-216 | the result is a disjoint union: each case scored by one attempt, with that attempt's verdict |
| AutobahnRunner.WholeSection | scripts/autobahn_runner.py:217-218 | if attempts score only section cases, a pass has scored the whole section |
| AutobahnRunner.FailsForCause | scripts/autobahn_runner.py:168-187 | a failure names its true cause: scored twice, too many cases, an unwell server, no connect failure, or the last attempt cut short too; evidence is kept of every attempt that did not complete |
| AutobahnRunner.HonestPassesExactly | scripts/autobahn_runner.py:190-246 | with a server that stays well and a runner that honours exclusions, a pass is exactly the four attempts reaching every case between them |
| AutobahnRunner.Compare | scripts/autobahn_runner.py:249-288 | the findings in the order reported, cases that ran and then pinned ones, each sorted, and exactly those of the per-case rules |
| AutobahnRunner.CompareExactly | scripts/autobahn_runner.py:249-288 | no finding if and only if nothing outside the pinned set failed and every pinned case of a run section scored FAILED |
| VerdictRules.SectionExactly | scripts/autobahn_runner.py:268 | a case's section is what stands before its first dot |
| VerdictRules.CompareByRules | scripts/autobahn_runner.py:249-288 | a defect is reported if and only if the rule for its kind says so of the case, the verdicts and the sections run; new failures first, then the pinned cases, each in the order of the cases |
| AutobahnRunner.RunAll | scripts/autobahn_runner.py:682-714 | the run stops at the first section not believed, and otherwise compares the merged verdicts of all of them |
| AutobahnRunner.NothingHidden | scripts/autobahn_runner.py:190-288 | when all sections pass and the comparison is empty, no attempt of any section scored a failure outside the pinned set: neither a resume nor a merge hides one |
| WstestModel.DropsAreHonest | scripts/autobahn_runner.py:341-378 | the model of wstest, with scripts of whole and dropped attempts, honours the exclusions |
| WstestModel.ProgressIs | scripts/autobahn_runner.py:357-376 | after i attempts as many cases are scored as the script reaches, up to the whole section |
| WstestModel.DropsPassExactly | scripts/autobahn_runner.py:381-400 | a section passes on such a script if and only if its four attempts add up to the section |
| WstestModel.IgnoredExclusionsRefused | scripts/autobahn_runner.py:364-365 | a runner that ignores the exclusions ends the section as scored twice, in that attempt |
| CodeOnly.PieceBalanced | scripts/check_task_shells.py:124-171 | each turn of the lexer puts out as many newlines as it reads, one more only when a here-document runs into an unended last line, and moves the cursor on |
| CodeOnly.SkipPending | scripts/check_task_shells.py:129-138 | the here-document loops skip to the function's cursor and put out a newline a line |
| CodeOnly.SkipQuoted | scripts/check_task_shells.py:151-153 | the quote loop stops where the recursive scan does, an escaped quote passed over |
| CodeOnly.ReadPiece | scripts/check_task_shells.py:125-171 | one turn of the loop, branch by branch, is one piece of the lexer |
| CodeOnly.CodeOnly | scripts/check_task_shells.py:117-172 | the whole loop gives the lexer's output, with as many newlines as the body, one more exactly when it ends inside an unended here-document line |
| CodeOnly.LinesKept | scripts/check_task_shells.py:117-172 | every character kept stands on its own line of the body, in order; what is not kept is a blank, a quote or a newline |
| CodeOnly.LastLineAdded | scripts/check_task_shells.py:131-136 | a body on which one newline too many comes out |
| CodeOnly.LineReported | scripts/check_task_shells.py:222-244 | for a match whose tell-tale character is code, the line counted off is that character's line in the body, less the newlines inside the match before it |
| CodeOnly.DoubleBracketLine | scripts/check_task_shells.py:232-234 | the line reported for `[[` is the line it stands on if and only if no newline is part of the match; otherwise it is one line early |
| CodeOnly.DoubleBracketOneEarly | scripts/check_task_shells.py:176 | plain text is kept as it is, and a `[[` opening the second line is reported on the first |
| CodeOnly.VariantsAgree | scripts/check_task_shells.py:154-157 | the two readings have the same lines, and what the plain one keeps the other keeps on the same line |
| CodeOnlyText.CodeOfItems | scripts/check_task_shells.py:117-172 | the code of a text made up of plain characters, escapes, quoted strings, comments, here-document markers and the lines up to their delimiters is exactly what these show: code as it is, the rest blanked, a newline a line |
| CodeOnlyText.EveryBody | scripts/check_task_shells.py:117-172 | every text there is is made up of these, so its code is what they show |
| CodeOnlyText.CommentBlanked | scripts/check_task_shells.py:160-163 | where a comment may open, it is blanked to the end of its line, whatever stands in it, and the text goes on behind it |
| Ordering.FixedWidthOrder | scripts/check_docs.py:1753-1766 | decimal numerals of one width are ordered as the numbers they name |
| Ordering.LessExactly | scripts/check_docs.py:431-432 | a string is below another if and only if they agree up to some place where the first ends or has the smaller character |
| Ordering.LastIsGreatest | scripts/check_docs.py:431-432 | the last of the sorted names is one of them and none is above it |
| BenchNames.ParseIsName | scripts/check_docs.py:1790 | a name is parsed to a kind and a stamp if and only if it is that kind and stamp written out |
| BenchNames.NameOrder | scripts/check_docs.py:429-432 | within a kind, names are ordered as the times they are stamped with |
| BenchNames.MatchesKind | scripts/check_docs.py:431 | a stamped name matches a kind's glob if and only if it is of that kind or of one the kind is a dash-prefix of |
| BenchNames.NoShadowIsExact | scripts/check_docs.py:1803-1805 | among stamped artifacts no kind shadows another if and only if every kind's glob selects that kind's artifacts and no others |
| BenchNames.BenchIsNewest | scripts/check_docs.py:429-432 | then `_bench` gives, for every kind present, the artifact of exactly that kind with the latest stamp |
| BenchNames.NewestExists | scripts/check_docs.py:429-432 | a kind that is present has a newest artifact |
| BenchNames.NewestUnique | scripts/check_docs.py:429-432 | and only one |
| BenchNames.BenchRightExactly | scripts/check_docs.py:429-432 | among stamped artifacts `_bench` gives the newest of a kind if and only if no artifact of a kind it is a dash-prefix of sorts above that one, by what follows the dash |
| BenchNames.IntruderWins | scripts/check_docs.py:1759-1764 | whether a shadowing kind's file sorts above: the first place where its own part, closed by a dash, differs from the date, closed by its T, decides; so a letter first always wins, a dash first never does, and a digit first goes by that digit or, where it equals the year's, by what comes behind |
| BenchNames.EqualDigitWins | scripts/check_docs.py:1763-1764 | kind `asgi-2x` begins with the year's first digit and its file sorts above all the same |
| BenchNames.ShadowMisleads | scripts/check_docs.py:1766-1768 | with a shadow that begins with a letter `_bench` never gives the newest artifact of the kind |
| BenchNames.CheckBenchKinds | scripts/check_docs.py:1787-1814 | reports every unstamped artifact and every shadow; nothing is reported if and only if all are stamped and all globs exact, and `_bench` is then right for every kind present |
| BenchNames.CleanCheck | scripts/check_docs.py:1787-1814 | what an empty list of reports says about the directory |
| BlobsProbe.WindingRotated | scripts/blobs_probe.py:233-236 | the winding sum is the same whichever vertex comes first |
| BlobsProbe.WindingReversed | scripts/blobs_probe.py:233-236 | it is negated when the vertices are reversed |
| BlobsProbe.WindingMoved | scripts/blobs_probe.py:233-236 | it is that of the shape, wherever it stands |
| BlobsProbe.CheckRotated | scripts/blobs_probe.py:216-241 | the verdict on an outline and its bounds do not depend on which vertex comes first |
| BlobsProbe.CheckReversed | scripts/blobs_probe.py:237-238 | an outline that passes fails when its vertices are reversed |
| OutlineMeans.CheckExactly | scripts/blobs_probe.py:216-241 | an outline passes if and only if it has 48 vertices, all in percent (from 1 to 99 where it is to keep clear), and a negative winding; what comes back are the least and greatest coordinates |
| OutlineMeans.StarWinds | scripts/blobs_probe.py:233-238 | an outline that goes round some point the negative way throughout has a negative winding, one that goes round it the other way a positive one |
| BlobsProbe.SquaresRotated | scripts/blobs_probe.py:279-283 | rotating either outline is a change of shift |
| BlobsProbe.BestRotated | scripts/blobs_probe.py:305 | the least move over all shifts is unchanged by rotating either outline |
| BlobsProbe.BestSwapped | scripts/blobs_probe.py:305 | and by matching the two the other way round |
| BlobsProbe.RootOrdersSquares | scripts/blobs_probe.py:272-274 | the root orders rotations as the sum of squares does |
| BlobsProbe.TwistedRotated | scripts/blobs_probe.py:304-307 | the twist verdict is unchanged when both outlines begin at another vertex |
| BlobsProbe.TwistMeansNearer | scripts/blobs_probe.py:304-307 | the least-squares rotation is never called a twist: a twist means some rotation has a smaller sum of squares |
| OutlineMeans.TwistedExactly | scripts/blobs_probe.py:304-307 | a step is called twisted if and only if some rotation would have moved the vertices less, by more than five parts in a hundred and the rounding |
| OutlineMeans.NoMoveExactly | scripts/blobs_probe.py:279-283 | a rotation moves nothing if and only if it lays each vertex on its own |
| OutlineMeans.MovedWhole | scripts/blobs_probe.py:279-283 | an outline moved as a whole is moved, under the root, by the square of the way it went |

## Left out

- The Mojo server, sockets, subprocesses, signals, docker, browsers, git and HTTP fetching: arbitrary pieces, functions or adversaries stand in for them.
- Python's wider `int`: underscores, a `0x` prefix, signs before hexadecimal digits, and Unicode white space or digits. Sizes are hexadecimal digits, lengths an optional sign and decimal digits, with ASCII white space trimmed.
- Unicode: `\w`, `\d`, `\s` and `lower` are ASCII; UTF-8 decoding of names in binary files is not modelled.
- ChunkedKeepalive.Exchange: a negative Content-Length on the second response reads nothing; the source would slice its buffer with it. The HTTP/1.0 request before it and the printed digest are left out.
- DemoProbe.Stream.Feed: keeps the bodies handed to the event parser; the parser and its event filter are not modelled.
- DrainStreamProbe.Reader.Fill: has no deadline, and a reset connection reads as its end.
- Responses.ReadResponses: leaves `echoed` as a token holding status and body; JSON decoding and the method it prints are not modelled, nor is the one-line `outcome` on top.
- Responses.ParseResponses: stops with `NegativeLength` where the source would go on slicing with a negative bound, which need not end.
- Fingerprint.Hashed: gives the bytes hashed; SHA-256 itself is not modelled.
- CopybackGuard.Copies: takes the functions already parsed; reading `define` lines, `layouts` and the judgement over both programs are left out.
- Layout.NestedLaidOut: is about vectors of power-of-two size, and no others will do for all types over them (`Layout.RegularExactly`); a single type with other vectors may still come out aligned.
- Layout.AlignPower: likewise.
- Citations.CheckCitations: takes the files in the sorted order the source visits them; wording, the workflow rules and reading the tree are left out.
- Citations.Collect: assumes that what documents name stays within a finite set, as the RFC series does.
- Citations.LiveDiff: leaves out the wording of what it reports.
- AutobahnRunner.DriveSection: takes the connect failures of a transcript as a list, and the skipped ids as a set; wording and printing are left out.
- AutobahnRunner.Compare: takes the pinned set as a parameter and leaves out the wording.
- WstestModel.DropsPassExactly: scripts are total; the model's own refusal to run past the end of a script is left out.
- BundleArtifact.Bundle: reads each file as it is on disk after copying; rewriting search paths, signing, sizes and layout flags are left out.
- CodeOnly.DoubleBracketLine: is about one match of the pattern; scanning for matches and the other patterns of `lint` are left out.
- BenchNames.CheckBenchKinds: takes the directory as a list of names.
- BlobsProbe.CheckRotated: works over reals; a float sum may round differently from another first vertex. The other checks on a frame are left out.
- BlobsProbe.CheckReversed: works over reals, likewise.
- BlobsProbe.WindingRotated: works over reals, likewise.
- BlobsProbe.WindingReversed: works over reals, likewise.
- BlobsProbe.WindingMoved: works over reals, likewise.
- BlobsProbe.SquaresRotated: works over reals, likewise.
- BlobsProbe.BestRotated: works over reals with the square root any function.
- BlobsProbe.BestSwapped: works over reals with the square root any function.
- BlobsProbe.TwistedRotated: works over reals with the square root any function.
- BlobsProbe.RootOrdersSquares: works over reals with the square root any increasing function; a float root can tie.
- BlobsProbe.TwistMeansNearer: works over reals with the square root any increasing function.
- OutlineMeans.CheckExactly: works over reals, and takes the vertices already read off their text.
- OutlineMeans.StarWinds: works over reals, likewise.
- OutlineMeans.TwistedExactly: works over reals with the square root any function.
- OutlineMeans.NoMoveExactly: works over reals, likewise.
- OutlineMeans.MovedWhole: works over reals, likewise.
- BundleNeeds.BundleSpelt: is about needs spelt with a slash behind each place; a name that only begins like one, such as `@loader_pathx`, is left to `BundleArtifact.BundleExactly`.
- ResponseHeads.HeadIsRead: is about heads without a bare CR, which section 2.2 of RFC 9112 forbids a sender.
- Benchmark drivers, medians, timing bounds, other `check_docs` rules and single-pass list comparisons would add only easy members.
