# zindex, modelled and verified

zindex builds an index over a gzip-compressed text file, and zq uses the index to fetch single lines without
decompressing the file from the start. This project models the code that does the work and proves that what comes
out is what decompressing and scanning the whole file would give. It also models the two pieces of bundled C code
with a format of their own: the cJSON parser, printer, minifier and list editor, and the CSV writer and reader of
the SQLite shell.

`dafny verify dfyconfig.toml` checks everything.

## The index

- **Compressed files** (`Deflate`, `BitPacking`, `GzipFile`, `FilePlan`, `Layout`). DEFLATE output is modelled at
  the level of tokens: literals, and matches with a length and a distance of at most 32768 (RFC 1951 sections 2,
  3.2.3 and 3.2.5); bits are packed as section 3.1.1 of RFC 1951 says; a file is a sequence of members (RFC 1952
  section 2.2). How zlib reads headers and blocks is an arbitrary `Codec`, so the results hold for every way of
  coding blocks. A `Plan` is what the rest depends on: the text, and where every block boundary lies in the text
  and in the file's bits.
- **Foreign calls** (`Zlib`, `RawZlib`). A stdio file, and inflate in gzip mode with `Z_BLOCK` and in raw mode with
  `Z_NO_FLUSH`. Each call makes some progress, and how much is left open, so every chunking of input and output
  is covered. The caller must offer the file's bytes in order: that is a precondition of every call.
- **Building** (`CircularWindow`, `Checkpoints`, `TextLines`, `Indexing`, `LineFinder`, `IndexTables`, `Builder`).
  `Build` follows the loops of `Index::Builder::Impl::build` over a 32 KiB buffer that is overwritten in place.
  `Checkpoints` is an independent definition of which block boundaries become checkpoints; `ScanLines` one of what
  the line finder and its sink do. The tables are maps keyed as the schema says, and a duplicate primary key is a
  failure.
- **Reading** (`Resuming`, `Reader`). `Print` takes the cached decoder or a fresh one, skips to the line and
  delivers it. `Valid` says that a cached context, its buffered input and the file position denote one place of the
  text.
- **What it means** (`SavedLines`, `IndexQueries`, `IndexContents`, `EndToEnd`). `BuildThenGetLines` runs zindex and
  then zq, and compares with cutting the decompressed text at its newlines; `BuildThenQuery` compares a query with a
  plain scan.
- **Where that ends** (`FixedCodes`, `Counterexamples`). Two gzip files, given by their bytes, for every codec that
  reads literals in fixed Huffman codes (RFC 1951 section 3.2.6): one that cannot be indexed, and one with two lines
  that cannot be fetched one after the other.
- `RangeFetcher` merges the context windows of successive requests.

In sparse mode `SavedLines.KeptWhen` says which lines are saved, and `IndexQueries.PlainScanFinds` what a plain scan
is, both in terms of the configuration alone; `Deflate.MatchCopies` says what a match of DEFLATE yields.

Results that differ from what one might expect:

- Two checkpoints get the same primary key, and building fails, not only after an empty member in the middle of a
  file. It also happens when the last checkpoint of a member lies before empty blocks that end the member, and
  another member follows. `Counterexamples.ClashExample` is such a file for every checkpoint spacing.
  `Checkpoints.Shape.DistinctWhen` is the exact condition, in terms of the file's block boundaries: some member that
  another one follows `EndsOnMark`, which depends on the boundaries of that member alone. No clash arises when
  members end in a block that yields something (`NonEmptyEndings`).
- A file of zero bytes is accepted, with the lines of a buffer that was never filled (src/Index.cpp:647).
- A file that ends within a gzip header, behind complete members, is accepted as if it ended before
  (src/Index.cpp:562-563).
- A decoder that is kept after a line of one member is taken for a line of a later member when that line starts less
  than a block behind the place reached. A line that starts behind the end of the decoder's member then makes the
  request throw. One that starts exactly at that end, as the next line in sequence does, makes it throw or delivers a
  buffer that was never filled: nothing at all is decoded. `GetLine` states this for one request, exactly.
  `HazardWhen` turns it into offsets that a caller knows, and `BuildThenGetLines` into a condition on a whole run:
  all lines come out right when no request hops from one member to a later one less than a block away, and when a
  request hops from a place before the end of a member they do not. A hop from the very end of a member may go
  either way: it depends on whether zlib reports the end together with the last byte, so that no decoder is kept.
  `Counterexamples.HopExample` gives files of two members on which a request for a line fails after that for the line
  three before it.
- When requests go back within the first lines of the file, so that both windows begin with line 1, the end of the
  shorter window is taken for the place where printing stopped, and lines are printed again right behind a later one:
  `RewindExample`. `SpacedWhen` is the exact condition for separators standing exactly where printed lines are not
  consecutive; without such a step back it always holds, however requests go forth and back.

## The bundled JSON code

`JsonText` defines the values and the one text that stands for each, formatted or not. `JsonParse` and `JsonStrings`
hold the parser, `JsonPrint` the printer that allocates every text, `JsonBuffer` the one with a growing buffer, and
`JsonMinify` the minifier that rewrites its argument in place. The methods are proved against functions, and the
functions against definitions of another kind:

- `JsonLiterals` defines string literals as sequences of characters and escapes, and `JsonGrammar` the texts of each
  value. Exactly these are parsed, and parsing anything else stops exactly where it gets stuck.
- `JsonTokens` has a value as a sequence of tokens. The formatted text is what a pretty printer makes of them that sees
  one token after another. With any blanks between them the tokens are parsed as the value; with any blanks and closed
  comments they minify to its unformatted text.
- `JsonMinify` defines the lexemes that minifying sees. Exactly the texts made of them are minified.

So parsing undoes printing (`JsonRoundTrip`), the two printers agree, and minifying a formatted text gives the
unformatted one. `JsonList` holds the linked lists and `cJSON_Duplicate`.

Results that differ from RFC 8259: a literal may lack its closing quote at the end of the text; any byte from 1 to 32
is a blank; a sign or a zero alone is a number, and a zero may precede one. Minifying takes `/*/` for a whole comment.

## The CSV format

`Csv` holds `output_csv` and `csv_read_one_field`. Reading gives back what was written exactly when the separator is
an ASCII character or no row has two columns: the reader keeps the separator in an `int` that a signed `char` was
assigned to, and no byte from 128 on equals that. `CsvFields` says what is read from any input, in terms of the input.

## Model

| member | source | states |
|---|---|---|
| EndToEnd.BuildThenGetLines | src/Index.cpp:298-444 | Building then fetching a run of lines, each within some member, delivers for each requested number that names a saved line the line cut from the decompressed text (with the unsaved lines behind it), in order, and nothing else, for any buffering and spacing, if no request hops from one member to a later one less than a block behind the place reached; and if every line delivered was decoded, none hopped from a place before a member's end. |
| EndToEnd.OneMember | src/Index.cpp:217-221 | Requests that stay in one member never hop, whatever the block size and their order. |
| Counterexamples.HopExample | src/Index.cpp:344-434 | For every n from 2 on, spacing from n on and block size from 3 on, there is a gzip file of 2n lines in two members that can be indexed, but the run of requests for lines n - 1 and n + 2, each within one member, throws or delivers a line that was not decoded. |
| IndexContents.BuildThenQuery | src/Index.cpp:306-319 | After building, a query visits exactly the lines on which a plain scan of the text finds the key, as often, under the numbers they are saved under. |
| IndexContents.EveryCheckpointDecodes | src/Index.cpp:591-618 | From every row of the access point table, raw decoding of the primed bits and the bytes from its offset, with its window, gives the text from its key to the end of the member. |
| IndexContents.AcceptsWhen | src/Index.cpp:557-644 | Building succeeds exactly when zlib accepts the file, no member that another one follows ends on its last checkpoint, and no unique index gets a key twice. |
| Counterexamples.ClashExample | src/Index.cpp:600-607 | For every spacing there is a gzip file of two non-empty members, given by its bytes, that zlib accepts and that no configuration can index. |
| EndToEnd.DescribedIsIndexed | src/Index.cpp:638-658 | The tables of a successful build meet everything the reader relies on: every text offset has a checkpoint, and every line row lies within the text. |
| EndToEnd.NonSparse | src/Index.cpp:725-725 | Without sparse mode request n delivers the n-th line of the text, and there are as many as lines. |
| EndToEnd.SingleMember | src/Index.cpp:414-437 | In a file of one member every saved line shorter than 64 MiB can be fetched. |
| Deflate.WindowSuffices | src/Index.cpp:69-80 | Tokens produce the same bytes from any window that agrees with the history on its last 32768 bytes: older and arbitrary bytes never matter. |
| GzipFile.RandomAccess | src/Index.cpp:349-372 | At every block boundary of every member, decoding the file's bits from there with such a window yields the file's text up to the end of the member, and needs no byte of the trailer. |
| GzipFile.ParseComplete | src/Index.cpp:621-635 | A file that consists of members, with at most part of a header behind them, is accepted, and exactly these members are found. |
| BitPacking.ResumeBits | src/Index.cpp:611-615 | For every bit offset, the primed top bits of one byte and the bits of the bytes behind it are the file's bits from the checkpoint's position on. |
| Resuming.PlanDecodes | src/Index.cpp:359-371 | What the reader primes and reads at any checkpoint decodes to the rest of the member's text. |
| Layout.PlanOfValid | src/Index.cpp:543-570 | Block boundaries of any file are ordered in bits and in text, each member starts where the one before ends, and a rejected file goes on behind its last whole member. |
| Layout.FinalBlock | src/Index.cpp:595-596 | A member ends in a non-empty block exactly when its final block holds a token that yields something. |
| Layout.BlocksYield | src/Index.cpp:591-593 | A bound on what every block yields bounds the distance of neighbouring boundaries. |
| CircularWindow.MakeWindow | src/Index.cpp:69-80 | The circular buffer comes out oldest byte first. |
| CircularWindow.WindowRecalls | src/Index.cpp:69-80 | Whatever the fill level and round, what comes out recalls the text since the member began as far as a distance reaches. |
| Checkpoints.Shape.Tiles | src/Index.cpp:238-243 | Every text offset lies in the range of exactly one checkpoint. |
| Checkpoints.Shape.RangeMember | src/Index.cpp:591-618 | That checkpoint belongs to the member whose text holds the offset. |
| Checkpoints.Shape.Spacing | src/Index.cpp:591-598 | If blocks yield at most B bytes, no range is longer than the spacing plus B, and one closed by a checkpoint of the same member is longer than the spacing. |
| Checkpoints.Shape.Count | src/Index.cpp:591-598 | k checkpoints apart within a member means at least k times (spacing + 1) bytes of text, so their number is bounded by the member's size. |
| Checkpoints.Shape.MarksGrow | src/Index.cpp:600-617 | Past offset 0, checkpoints are only ever added to the list. |
| Checkpoints.Shape.DistinctWhen | src/Index.cpp:484-491 | No two checkpoints share a key if and only if no member that another one follows ends, behind some text, on the last checkpoint that its own block boundaries give it. |
| Checkpoints.Shape.NonEmptyEndings | src/Index.cpp:621-635 | There is no clash when every member behind which text follows ends in a non-empty block or lies at the very start. |
| IndexBuilding.Build | src/Index.cpp:527-663 | For every file, spacing and configuration: success exactly when the file is accepted, checkpoint keys are distinct and unique keys do not repeat; then the tables hold exactly the checkpoints' and the scan's rows. A data error is thrown only for a file that zlib rejects, and otherwise a constraint error. |
| IndexBuilding.Run | src/Index.cpp:559-636 | The loops end, and have recorded all checkpoints and fed all but the last window, or the file is not accepted. |
| IndexBuilding.Step | src/Index.cpp:571-619 | One inflate call keeps the totals, the window, the line finder and the checkpoint list in step with the stream. |
| IndexBuilding.AtBoundary | src/Index.cpp:591-618 | The decision at a stop follows the definition of checkpoints, and a failing insertion means that two checkpoints share an offset in the whole file. |
| IndexBuilding.Close | src/Index.cpp:600-607 | Inserting the pending row fails exactly when an earlier checkpoint has its offset. |
| IndexBuilding.LastFlush | src/Index.cpp:638-643 | The last insertion completes the table for the whole text, or fails exactly when keys are not distinct. |
| IndexBuilding.Finish | src/Index.cpp:638-658 | The tables are complete exactly when building is accepted. |
| IndexBuilding.FinishLines | src/Index.cpp:647-658 | The partial or exactly full last window completes the text, and the line table is that of its scan. |
| IndexBuilding.LineRows | src/Index.cpp:649-656 | Each line's row runs from its own offset to that of the next saved line. |
| TextLines.Rejoin | src/LineFinder.cpp:11-28 | The lines hold no newline and, joined with newlines, give back the text. |
| LineFinding.LineFinder.Add | src/LineFinder.cpp:11-28 | After any pieces, calls, offsets, tables and the pending line are those of one scan of everything added; it fails exactly when that scan fails. |
| LineFinding.LineFinder.TellSink | src/LineFinder.cpp:30-47 | A line whose pieces came apart is reported once, whole, with its offset and number. |
| LineFinding.LineFinder.FindNewline | src/LineFinder.cpp:14-15 | The first newline of the piece, if there is one. |
| LineFinding.CutsDoNotMatter | src/LineFinder.cpp:11-56 | Two finders fed the same text in different pieces end in the same state, having made the same calls. |
| Indexing.Sink.OnLine | src/Index.cpp:716-726 | A line is saved exactly when it is one of those skipped, all lines are saved, or an indexer finds a key on it; the keys of a line that is not skipped are in the tables unless a unique key repeats. |
| Indexing.Sink.IndexWith | src/Index.cpp:125-159 | All keys found on the line are added to the index in order, or none are kept. |
| SavedLines.ScanFits | src/LineFinder.cpp:30-47 | Every line is reported once, in order, with its byte offset and number, and the saved offsets are those of the lines kept. |
| SavedLines.KeptWhen | src/Index.cpp:716-726 | Among the lines, exactly those are kept that are skipped, or hold a key for some indexer, and all of them when all lines are saved. |
| SavedLines.Extents | src/Index.cpp:649-656 | Extents tile everything from the first saved line to the end, and each holds its line and the following unsaved ones. |
| SavedLines.ExtentsMakeText | src/Index.cpp:649-656 | The extents of all rows, one after another, are the joined lines from the first saved one on. |
| SavedLines.Delivery | src/Index.cpp:377-442 | An extent without its last byte is the line, and after a newline what follows it up to the next saved line: also for a last line without newline. |
| SavedLines.JoinAll | src/LineFinder.cpp:36-41 | All lines joined are the text, with one byte more after an unterminated last line. |
| SavedLines.AllKept | src/Index.cpp:725-725 | Without sparse mode all lines are kept, under their own numbers. |
| IndexQueries.ScanIndexes | src/Index.cpp:674-714 | Indexing succeeds exactly when no unique index gets a key twice, and then each table is exactly the lines' keys in order. |
| IndexQueries.RowNamesLine | src/Index.cpp:150-159 | Every row names a saved line on which the indexer finds the row's key at the row's offset. |
| IndexQueries.FoundHasRow | src/Index.cpp:150-159 | Every key that an indexer finds on a line that is not skipped has a row with its offset, which names that line. |
| IndexQueries.QueryIndex | src/Index.cpp:306-319 | The visited lines are those of the rows with the key, in order, and are counted. |
| IndexQueries.QueryFinds | src/Index.cpp:306-319 | Queries on the table and plain scans of the text find the same lines, sparse or not. |
| IndexQueries.PlainScanFinds | src/Index.cpp:306-319 | The plain scan lists every line that is not skipped as often as the key is among those found on it, in order, and nothing else. |
| IndexReading.Index.Lookup | src/Index.cpp:238-243 | A row is found exactly for a saved line whose offset lies in the text, with the one access point whose range holds it. |
| IndexReading.Index.Covered | src/Index.cpp:238-243 | Exactly one row of the access point table matches any offset of the text. |
| IndexReading.Index.TakeContext | src/Index.cpp:344-372 | The cached context is taken exactly when the offset is ahead by less than the block size; a fresh one stands at the checkpoint, in the member of the line; either is in the line's member unless the offset lies at or behind the end of the cached one's. |
| IndexReading.Resumption | src/Index.cpp:349-371 | At any recorded checkpoint the primed decoder yields the member's text from there and stops before its trailer. |
| IndexReading.Pump | src/Index.cpp:398-438 | The buffer is filled with the text at the context's offset, whatever the calls return, or the member's end was met: an error only while skipping. |
| IndexReading.Extract | src/Index.cpp:373-439 | A line that starts before the end of the context's member comes out as the text says, up to that end; one that starts behind the end throws; one exactly at the end throws or comes out with no byte decoded. A context that is kept stands behind the line. |
| IndexReading.Index.Print | src/Index.cpp:338-444 | A line that lies in one member is delivered exactly, unless a reused context's member ends at or before its offset: then the call throws behind the end, and at the end throws or delivers a buffer into which nothing was decoded. A line too long throws as such. |
| IndexReading.Index.GetLine | src/Index.cpp:298-304 | For a request by number: nothing for a line without a row; a line of some member is decoded if and only if no cached context of an earlier member is taken for it, and then comes out as the text says, from a cached context or a fresh one. |
| IndexReading.Index.HazardWhen | src/Index.cpp:217-221 | After line p of member m was read, a context of member m is taken for line q of a later member only if q starts less than a block behind p's end, and always if it does and p ends before the member. |
| IndexReading.Index.GetLines | src/Index.cpp:775-779 | Over a run of requests in any members and any order, the lines delivered depend on the requests and the text alone if no request meets that case; and if every line was decoded, none met it for sure. |
| RangeFetching.RangeFetcher.Fetch | src/RangeFetcher.cpp:11-29 | After any requests the events are those of the definition of merged windows. |
| RangeFetching.Context.Union | src/RangeFetcher.cpp:11-29 | The lines printed are exactly the union of the windows, cut off at line 1, for any requests in any order. |
| RangeFetching.Context.HowOften | src/RangeFetcher.cpp:11-29 | Each line is printed once by every request in whose window it lies, but for the requests whose window begins in the one before and that had it already, in whatever order they come. |
| RangeFetching.Context.SpacedWhen | src/RangeFetcher.cpp:18-28 | For any requests: separators stand exactly where printed lines are not consecutive if and only if each request that prints goes on where printing stopped or begins elsewhere. |
| RangeFetching.Context.SpacedUnlessRewound | src/RangeFetcher.cpp:18-28 | That holds for all requests, forth and back, unless one goes back while both windows begin with line 1. |
| RangeFetching.RewindExample | src/RangeFetcher.cpp:18-28 | With two lines of context before, requests 3, 1 and 2 print line 2 again, right behind line 3. |
| RangeFetching.Context.Ordered | src/RangeFetcher.cpp:11-29 | When requests do not go back, neighbouring lines are consecutive and a separator stands exactly at each gap. |
| RangeFetching.StrictlyIncreasing | src/RangeFetcher.cpp:25-26 | Then printed lines strictly increase. |
| JsonRoundTrip.RoundTrip | ext/cJSON/cJSON.c:490-757 | Parsing the printed text of any value gives the value and stops at its end, formatted or not. |
| JsonGrammar.WovenReads | ext/cJSON/cJSON.c:436-514 | The tokens of a value with any blanks between them are parsed as the value, wherever they stand in a larger text. |
| JsonGrammar.ValueParsed | ext/cJSON/cJSON.c:490-757 | A value is the result, with this end, if and only if the text from here to there stands for it in the grammar: arrays and objects with their commas, colons and brackets, literals, numerals and keywords. |
| JsonGrammar.ErrorAt | ext/cJSON/cJSON.c:513-753 | An error is reported at a place if and only if reading gets stuck there: where no value, name, colon, comma or bracket stands as it should, or a literal is no literal. |
| JsonGrammar.SkipIs | ext/cJSON/cJSON.c:436-440 | Skipping ends at the first byte that is not between 1 and 32. |
| JsonGrammar.NumberParsed | ext/cJSON/cJSON.c:94-125 | An integer is the result if and only if a numeral for it stands there: a sign, a zero and digits, with nothing behind that would belong to it. |
| JsonTokens.TextLaid | ext/cJSON/cJSON.c:613-900 | The unformatted text is the tokens alone, and the formatted one what a pretty printer makes of them that knows the open brackets and the token before: new lines and tabs in objects, a tab behind a colon, a space behind a comma in an array. |
| JsonRoundTrip.PrintThenParse | ext/cJSON/cJSON.c:471-478 | Running the printer and then the parser returns the value. |
| JsonRoundTrip.NumberReads | ext/cJSON/cJSON.c:94-125 | The decimal text of a 32-bit integer is read as that integer. |
| JsonParse.ParseValueText | ext/cJSON/cJSON.c:490-514 | On any text, the recursive parser with its loops computes the grammar's value, end or error position. |
| JsonParse.ParseArrayText | ext/cJSON/cJSON.c:579-610 | The same for arrays. |
| JsonParse.ParseObjectText | ext/cJSON/cJSON.c:709-757 | The same for objects. |
| JsonParse.ParseNumberText | ext/cJSON/cJSON.c:94-125 | The same for integers. |
| JsonStrings.ParseStringLiteral | ext/cJSON/cJSON.c:228-335 | The two passes give the function's string, or the literal's start as the error; StringParsed says which. |
| JsonLiterals.StringParsed | ext/cJSON/cJSON.c:201-335 | A string is the result, with this end, if and only if a literal for it stands there: bytes, letter escapes, four hexadecimal digits of any code point in either case, or the two escapes of its surrogate pair, each as its UTF-8 form. |
| JsonStrings.Transcribe | ext/cJSON/cJSON.c:250-332 | The second pass stays within the room that the first one counted, and writes the unescaped string. |
| JsonStrings.UnescapeFits | ext/cJSON/cJSON.c:239-242 | No literal stands for more bytes than were counted for it. |
| JsonStrings.WriteUtf8 | ext/cJSON/cJSON.c:303-324 | Filling in bytes from the last to the first gives the UTF-8 form of the code point (RFC 3629 section 3). |
| JsonStrings.Utf8Stands | ext/cJSON/cJSON.c:303-324 | That form is well formed and decodes to the code point. |
| JsonStrings.Utf8Shortest | ext/cJSON/cJSON.c:303-324 | No shorter sequence stands for the code point. |
| JsonStrings.SurrogateBits | ext/cJSON/cJSON.c:300-300 | The shifts and masks combine a surrogate pair as RFC 8259 section 7 defines. |
| JsonStrings.ContinuationBits | ext/cJSON/cJSON.c:310-319 | The masks and shifts of continuation bytes are division by 64 and its remainder. |
| JsonLiterals.StringReads | ext/cJSON/cJSON.c:338-420 | A printed literal is parsed as the string it was printed from, for all bytes but NUL. |
| JsonLiterals.PrintedShortest | ext/cJSON/cJSON.c:338-420 | No literal for the same string is shorter than the printed one, unless it holds control characters as they are. |
| JsonPrint.Print | ext/cJSON/cJSON.c:476-478 | The allocate-per-value printer returns the value's text. |
| JsonPrint.PrintArray | ext/cJSON/cJSON.c:613-706 | The room computed for an array is never smaller than what is written, and the text is the array's. |
| JsonPrint.PrintObject | ext/cJSON/cJSON.c:760-900 | The same for objects, with indentation. |
| JsonPrint.PrintStringPtr | ext/cJSON/cJSON.c:338-420 | The literal fills exactly the room counted for it, quotes and terminator included. |
| JsonPrint.EscapedLength | ext/cJSON/cJSON.c:368-374 | The counting pass counts what the writing pass writes. |
| JsonText.NulFree | ext/cJSON/cJSON.c:164-169 | Texts of values hold no NUL, so that their length can be taken by looking for one. |
| JsonBuffer.PrintBuffered | ext/cJSON/cJSON.c:480-486 | For every value, format and initial size the returned buffer holds the same text as the other printer's, terminated, from its first byte on. |
| JsonBuffer.PrintBuffer.Ensure | ext/cJSON/cJSON.c:143-162 | There is room for what was asked for, and what had been written is kept. |
| JsonBuffer.PrintBuffer.Update | ext/cJSON/cJSON.c:164-169 | The offset moves to the end of the text just printed. |
| JsonBuffer.PrintBuffer.PrintValue | ext/cJSON/cJSON.c:517-576 | Behind what was printed before stands the value's text, terminated, with the offset somewhere in it; the returned position is where it starts, except for an object with members that is printed with format, which returns its depth. |
| JsonBuffer.PrintBuffer.PrintArray | ext/cJSON/cJSON.c:631-657 | The same for arrays, within the capacity. |
| JsonBuffer.PrintBuffer.PrintObject | ext/cJSON/cJSON.c:784-830 | The same for objects: the returned pointer is wrong exactly by the reuse of a loop variable, and right for the outermost object, whose offset and depth are 0. |
| JsonBuffer.Pow2GtRoundsUp | ext/cJSON/cJSON.c:127-135 | On 32-bit integers up to 2^30 the result is the smallest power of two that is not smaller. |
| JsonBuffer.RoundsUp | ext/cJSON/cJSON.c:127-135 | It agrees with rounding up on integers of any size, which the growing buffer is modelled with. |
| JsonMinify.Minify | ext/cJSON/cJSON.c:1217-1243 | In place, with the write position never past the read position, the array comes to hold what is kept of the text. |
| JsonMinify.MinifiesToUnformatted | ext/cJSON/cJSON.c:1217-1243 | Minifying the printed text of any value gives its unformatted text. |
| JsonMinify.MinifiedWhen | ext/cJSON/cJSON.c:1217-1243 | A text is minified to another if and only if it is made of blanks, closed comments, literals and other characters, and the other text is its literals, byte for byte, and other characters. |
| JsonMinify.CommentsDropped | ext/cJSON/cJSON.c:1217-1243 | Any blanks and closed comments before, between and behind the tokens of a value leave nothing but its unformatted text. |
| JsonMinify.PrintThenMinify | ext/cJSON/cJSON.c:480-486 | Printing into a buffer and minifying the buffer leaves the unformatted text in it. |
| JsonList.AddItemToArray | ext/cJSON/cJSON.c:944-952 | Linking an item in appends it to the sequence of children. |
| JsonList.InsertItemInArray | ext/cJSON/cJSON.c:1007-1020 | Inserts at a position, or appends behind the end; the chain stays linked both ways without a cycle. |
| JsonList.DetachItemFromArray | ext/cJSON/cJSON.c:979-988 | Removes the item at a position, and leaves it unlinked. |
| JsonList.ReplaceItemInArray | ext/cJSON/cJSON.c:1022-1034 | Updates the sequence at a position, and leaves the old item unlinked. |
| JsonList.Edits | ext/cJSON/cJSON.c:979-1034 | What the edits do at any position: negative ones mean the first item, and ones behind the end add at the end or find nothing. |
| JsonList.InsertThenDetach | ext/cJSON/cJSON.c:979-1020 | Inserting and then detaching at the same position gives the item back and restores the list, unless the position lies behind the end, where the item stays appended. |
| JsonList.DetachThenInsert | ext/cJSON/cJSON.c:979-1020 | Inserting a detached item at its position restores the list. |
| JsonList.OneList | ext/cJSON/cJSON.c:927-952 | The links determine the children: a parent has one list of them. |
| JsonList.Neighbours | ext/cJSON/cJSON.c:927-952 | Neighbouring items point at each other, and both ends point nowhere. |
| JsonList.Walk | ext/cJSON/cJSON.c:980-981 | Counting down walks to the position, to the first item for negative ones, or behind the end. |
| JsonList.Duplicate | ext/cJSON/cJSON.c:1169-1215 | A deep copy: in every node the same numbers, strings and name, and the same type but for the cleared reference bit; properly linked, and every node of it is new. Without recursion, one such node. |
| JsonList.SameAlong | ext/cJSON/cJSON.c:1169-1215 | The same paths of child positions lead to nodes in the copy as in the original, and these hold the same. |
| Csv.ExportThenImport | ext/sqlite/shell.c:972-988 | Writing a table and reading it gives back its fields and row ends exactly when the separator is ASCII or every row has one column. |
| Csv.RoundTrip | ext/sqlite/shell.c:2121-2206 | The same for the texts, embedded quotes, separators, carriage returns and newlines included, whether rows end with CR LF or LF, and whether the last one ends at all. |
| Csv.ShellState.OutputCsv | ext/sqlite/shell.c:768-797 | The field is written in the form that QuotedWhen describes, with its quotes doubled if quoted, and the separator behind it if asked for. |
| Csv.QuotedWhen | ext/sqlite/shell.c:743-797 | A field is written as it is if and only if it is not empty, all of it is printable and none of it a blank, a quote, an apostrophe or the separator; otherwise between quotes. |
| Csv.ShellState.OutputRow | ext/sqlite/shell.c:980-985 | Fields are separated, and the row ends in CR LF. |
| Csv.ImportCtx.ImportAppendChar | ext/sqlite/shell.c:2121-2131 | The byte is appended, and there is always room for one more. |
| Csv.ImportCtx.CsvReadOneField | ext/sqlite/shell.c:2146-2206 | On any input, value, terminator and position are those of the field, and the line counter has counted every line end passed. |
| CsvFields.QuotedIs | ext/sqlite/shell.c:2161-2192 | On any input, a quoted field ends at the first separator, row end or end of input right behind an unpaired quote, or behind that and a carriage return; its value is what comes before that quote, with every second quote of a run left out. |
| CsvFields.UnterminatedIs | ext/sqlite/shell.c:2183-2188 | When there is no such place, the field takes all that is left, and the end of the input ends it. |
| CsvFields.UnquotedIs | ext/sqlite/shell.c:2193-2203 | An unquoted field ends at the first separator, row end or end of input, without a carriage return before a row end. |
| CsvFields.LineEndsCounted | ext/sqlite/shell.c:2164-2165 | The line counter counts the bytes that end rows. |
| Csv.ImportCtx.BackToQuote | ext/sqlite/shell.c:2175-2175 | Going back ends before the last quote, inside the buffer. |
| Csv.DoubledReads | ext/sqlite/shell.c:2161-2192 | Inside quotes, a doubled field is collected as it was, whatever it contains. |

## Left out

- zlib's Huffman coding (but for the literals in fixed codes that the counterexamples use), checksums and header parsing: they are the arbitrary `Codec`; `compress2` and `uncompress` of a window are the identity.
- Where in a damaged member zlib notices the damage: at the latest when the input ends; no text of it is modelled, because building fails in any case.
- SQLite: SQL, transactions, metadata and their checks. The block size, an average over the access points, is a parameter of the reader.
- The order of rows that a query without ORDER BY returns: rows are visited in the order of insertion.
- The order in which an `unordered_map` holds the indexers: it is the order of a sequence; results are stated per index.
- FieldIndexer, RegExpIndexer, ExternalIndexer and numeric keys: a line indexer is any function from a line to keys.
- Logging, progress, command lines, and everything in ext/tclap.
- 64-bit overflow of offsets, line numbers and counters.
- The lifetime of the decoder after `context.reset()` (src/Index.cpp:434): the loop ends there, as its comments intend.
- IndexReading.Index.Print: for a line that spans members only the part up to the end of the first is described, by `Extract`; and nothing is said about later calls on an index after a call that threw, since the program ends its run then.
- RangeFetching.Context.SpacedWhen: leaves out requests for line 0 without lines after it; there is no such line. `Union` and `HowOften` cover them.
- IndexReading.Index.GetLines: once a line has been delivered of which nothing was decoded, nothing is said about the lines behind it.
- Allocation failure, hooks and reference items in cJSON; `cJSON_Delete` is left to the garbage collector.
- JsonParse.ParseNumberText: fractions, exponents and integers beyond 32 bits have the outcome `Unmodelled`, because they need floating point.
- JsonStrings.ParseStringLiteral: a text that ends within an escape, where the code reads past its end, has the outcome `Unmodelled`.
- JsonMinify.Minify: requires strings and comments to be closed, because the code runs past the end of the text otherwise.
- JsonParse.ParseArrayText: children are values in a chain, not nodes linked in memory; `JsonList` models the linking. The same holds for the printers.
- JsonBuffer.PrintBuffer.Ensure: sizes are unbounded integers; beyond 2^30 the 32-bit code overflows. `RoundsUp` covers sizes up to that.
- JsonStrings.WriteUtf8: bit operations are written as arithmetic; `ContinuationBits`, `FirstByteBits` and `SurrogateBits` show on bit vectors that they agree.
- JsonPrint.PrintNumber: `%d` of the C library is the function `NumberText`.
- Csv.ShellState.OutputCsv: NULL values, which are written as the empty text and read back as an empty string.
- The import command around the CSV reader: missing and extra columns, and diagnostics on stderr.
- The object variants of the cJSON list functions, which look a name up and then call the array variants.
