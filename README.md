# Photo feature ingestion of LibRec's `PhotoDataAppender`

This project models the photo data appender of LibRec
(`net.librec.data.convertor.appender.PhotoDataAppender`). The appender fills a dense
item-by-feature matrix from text files. It has `itemIds.size()` rows of 1000 columns, and
every row starts at zero. Each line of a file reads `item v1,v2,...,v1000`. For an item the
raw-to-inner item map knows, the line overwrites that item's row with the values.

The files are read in chunks. Each chunk is appended to a carried string, `bufferLine`, and
every CR becomes an LF. The buffer is then split on runs of LF, and only the
newline-terminated pieces are handled. An unterminated tail is carried into the next read.
When the buffer does end with LF, the carry is the whole buffer, so those lines are handled
again after the next read.

The central result is `PhotoAppender.ReadFile`. However the reads cut a file, and in spite of
the re-handling, the matrix ends exactly as if each complete line had been applied once, in
file order. An exception ends the ingestion and keeps the rows written before it.

The modules:

- `Wrappers`: `Option` and `Result`.
- `JavaText`: the parts of `java.lang.String` and commons-lang the appender relies on.
  - `String.split` with `"(\n)+"`, `"[ \t]+"` and `","`. When nothing matches, the result is the whole string; a leading empty piece is kept; trailing empty pieces are dropped.
  - `String.trim`, `replaceAll("\r", "\n")` and `StringUtils.isBlank`.
  - `Join`: tokens written with one separator character between neighbours, the layout a split undoes.
- `BufferedLines`: the line framing of a chunked read.
  - `Lines`: the pieces a run of LF terminates.
  - `CompleteRecords`: the pieces one read handles.
  - `Carry`: the text carried into the next read.
  - `FileRecords`: the records of a whole file read in one go.
  - The lemmas that tie the chunked reads to `FileRecords`.
- `PhotoTable`: the matrix as a sequence of rows, and what one record does to it (`RecordEffect`).
  - `Run` applies records in order and stops at the first abort.
  - `Ingest` is the outcome of reading a whole directory.
- `PhotoAppender`: the imperative code.
  - `ParseVector` fills a fresh array of parsed values.
  - `ApplyRecord` and `ApplyRecords` write into an `array<Row>` in place.
  - `ReadFile` is the read loop over one file, with each read's split written as `CompleteRecords` and `Carry`; `ReadFiles` is the loop over a directory's files.
  - `class PhotoDataAppender` has the fields of the Java class and `ProcessData`, `ReadData`, `GetItemAppender` and the two setters.

## Model

| member | source | states |
|---|---|---|
| PhotoAppender.PhotoDataAppender.constructor | core/src/main/java/net/librec/data/convertor/appender/PhotoDataAppender.java:65-77 | A new appender holds the given configuration; it has no path, no id maps and no matrix. |
| PhotoAppender.PhotoDataAppender.ProcessData | core/src/main/java/net/librec/data/convertor/appender/PhotoDataAppender.java:85-90 | Without a configuration, or with a blank `data.appender.photo.path`, nothing changes. Otherwise the path becomes `dfs.data.dir + "/" + data.appender.photo.path`, with a missing key rendered as "null", and the matrix and outcome are those of reading that path. |
| PhotoAppender.IngestionEnabled | core/src/main/java/net/librec/data/convertor/appender/PhotoDataAppender.java:86 | Never without a configuration, and never when the photo path is unset, empty or made of spaces, tabs, LF and CR. Always when the path holds a visible ASCII character. |
| PhotoAppender.PhotoPath | core/src/main/java/net/librec/data/convertor/appender/PhotoDataAppender.java:87 | The path is the data directory, a slash, then the photo path, with an unset key rendered as "null"; when ingestion is enabled it ends with the configured photo path. |
| PhotoAppender.PhotoDataAppender.ReadData | core/src/main/java/net/librec/data/convertor/appender/PhotoDataAppender.java:100-176 | Without an item map the read fails (the null dereference at :103) and leaves the old matrix. Otherwise a fresh matrix is allocated, and the matrix and outcome equal `Ingest` of the directory: zero rows, then every file's records in order. An unreadable directory leaves the zero matrix. |
| PhotoAppender.ReadFiles | core/src/main/java/net/librec/data/convertor/appender/PhotoDataAppender.java:126-174 | Reading the files in turn, each with a fresh `bufferLine`, equals applying `AllRecords`, the records of each file one after the other, and stopping at the first failure. |
| PhotoAppender.ReadFile | core/src/main/java/net/librec/data/convertor/appender/PhotoDataAppender.java:131-171 | The chunked read loop of one file leaves the matrix and failure exactly as applying the file's complete records once, in order (`FileRecords`), whatever the chunks are, although the lines of a buffer ending in LF are applied again on the next read. |
| PhotoAppender.ApplyRecords | core/src/main/java/net/librec/data/convertor/appender/PhotoDataAppender.java:140-166 | Handling the records of one read in place leaves the matrix and failure that `Run` of those records gives. |
| PhotoAppender.ApplyRecord | core/src/main/java/net/librec/data/convertor/appender/PhotoDataAppender.java:141-164 | Handling one record in place changes the matrix exactly as the record's effect says: nothing, the overwrite of one row, or an abort with the matrix untouched. |
| PhotoAppender.ParseVector | core/src/main/java/net/librec/data/convertor/appender/PhotoDataAppender.java:147-153 | The array loop over the comma-separated tokens yields exactly `ParseAll` of them. |
| PhotoAppender.PhotoDataAppender.GetItemAppender | core/src/main/java/net/librec/data/convertor/appender/PhotoDataAppender.java:183-185 | Returns the current matrix (null before any read). |
| PhotoAppender.PhotoDataAppender.SetUserMappingData | core/src/main/java/net/librec/data/convertor/appender/PhotoDataAppender.java:202-205 | Sets the user map and nothing else. |
| PhotoAppender.PhotoDataAppender.SetItemMappingData | core/src/main/java/net/librec/data/convertor/appender/PhotoDataAppender.java:213-216 | Sets the item map and nothing else. |
| PhotoTable.ParseAll | core/src/main/java/net/librec/data/convertor/appender/PhotoDataAppender.java:150-153 | Parsing succeeds exactly when every token parses, and then gives one value per token, in order. On failure it names a token that does not parse and before which all tokens parse. |
| PhotoTable.Fields | core/src/main/java/net/librec/data/convertor/appender/PhotoDataAppender.java:142 | The fields of a record: at least one, none holding a blank or tab, and the single empty field for a blank record (so `data[1]` is then out of range). |
| PhotoTable.FirstFailureReported | core/src/main/java/net/librec/data/convertor/appender/PhotoDataAppender.java:151-152 | The exception names the first token that does not parse, whatever follows it. |
| PhotoTable.RecordEffect | core/src/main/java/net/librec/data/convertor/appender/PhotoDataAppender.java:142-158 | Every branch of the record loop body. Fewer than two blank-separated fields in the trimmed record: abort with a missing field, and only then. Two fields, first not a known item: skip, and only then. A known item: abort with the first comma-separated value that does not parse; else abort when `itemIds.get(item)` is not a row of the `|ids|`-row matrix; else abort when there are not 1000 values; else overwrite that row with the parsed values. An overwrite always fits the matrix. |
| PhotoTable.EffectOf | core/src/main/java/net/librec/data/convertor/appender/PhotoDataAppender.java:142-158 | Each record's effect is `RecordEffect` under the item map, and every overwrite fits the matrix. |
| PhotoTable.Run | core/src/main/java/net/librec/data/convertor/appender/PhotoDataAppender.java:140-166 | Applying records keeps the number of rows and, when every row has 1000 values, keeps that too. |
| PhotoTable.ShortRecordAborts | core/src/main/java/net/librec/data/convertor/appender/PhotoDataAppender.java:142-144 | A record with fewer than two fields aborts the ingestion, known item or not, and keeps the matrix as it was. |
| PhotoTable.EmptyFirstRecordAborts | core/src/main/java/net/librec/data/convertor/appender/PhotoDataAppender.java:142-144 | Records that open with the empty record abort at once with `MissingFeatureField("")`, and the matrix is untouched. |
| PhotoTable.LeadingBreakFileAborts | core/src/main/java/net/librec/data/convertor/appender/PhotoDataAppender.java:103-174 | A directory whose first file opens with CR or LF and holds some other character aborts the ingestion at once with the empty record, leaving the fresh matrix all zero. |
| PhotoTable.UnknownItemIgnored | core/src/main/java/net/librec/data/convertor/appender/PhotoDataAppender.java:145 | A record whose item is not in the item map changes nothing. |
| PhotoTable.KnownItemOverwritesRow | core/src/main/java/net/librec/data/convertor/appender/PhotoDataAppender.java:142-158 | A record whose first field is a known item inside the matrix, and whose second field splits on commas into 1000 values that all parse, replaces exactly the row `itemIds.get(item)` with those values and leaves every other row as it was. |
| PhotoTable.UnparsableValueAborts | core/src/main/java/net/librec/data/convertor/appender/PhotoDataAppender.java:145-153 | A known item's record in which a value does not parse aborts with the first value that does not parse, and the matrix keeps what the earlier records wrote. |
| PhotoTable.KnownFieldsOverwrite | core/src/main/java/net/librec/data/convertor/appender/PhotoDataAppender.java:142-158 | A record whose fields are exactly a known in-range item and a value list of 1000 numbers overwrites that item's row with the parsed values. |
| PhotoTable.RecordFields | core/src/main/java/net/librec/data/convertor/appender/PhotoDataAppender.java:142-144 | A line `id values`, both parts non-empty and free of blanks and control characters, has exactly the two fields `id` and `values`: `trim` keeps it and the blank split gives back the two parts. |
| PhotoTable.WellFormedLineOverwrites | core/src/main/java/net/librec/data/convertor/appender/PhotoDataAppender.java:142-158 | The line a writer lays out for one item, `id v1,v2,...,v1000` with every value a number, overwrites that item's row with the 1000 parsed values, in order. |
| PhotoTable.LastWriteWins | core/src/main/java/net/librec/data/convertor/appender/PhotoDataAppender.java:92-94 | Duplicate lines are not treated specially: a row holds the values of the last record that writes it. |
| PhotoTable.RunAt | core/src/main/java/net/librec/data/convertor/appender/PhotoDataAppender.java:158 | After records that do not abort, each row holds the values of its last write, or its old value if no record writes it. |
| PhotoTable.UntouchedRowKept | core/src/main/java/net/librec/data/convertor/appender/PhotoDataAppender.java:158 | A row that no record writes keeps its value, even when the records abort. |
| PhotoTable.UnwrittenRowStaysZero | core/src/main/java/net/librec/data/convertor/appender/PhotoDataAppender.java:103 | After ingesting a directory, a row that no record writes is still the zero row of the fresh matrix. |
| PhotoTable.ZeroTable | core/src/main/java/net/librec/data/convertor/appender/PhotoDataAppender.java:103 | The fresh matrix has one row per item, and every row is the zero row. |
| PhotoTable.ZeroRow | core/src/main/java/net/librec/data/convertor/appender/PhotoDataAppender.java:103 | A fresh row has 1000 zeros. |
| PhotoTable.Ingest | core/src/main/java/net/librec/data/convertor/appender/PhotoDataAppender.java:100-176 | A directory ingestion yields exactly `itemIds.size()` rows of 1000 values each. |
| PhotoTable.RunIdempotent | core/src/main/java/net/librec/data/convertor/appender/PhotoDataAppender.java:138-168 | Applying the same records a second time changes nothing, which is why re-handling a buffer that ends with LF is harmless. |
| PhotoTable.RunAfterPrefix | core/src/main/java/net/librec/data/convertor/appender/PhotoDataAppender.java:137-168 | Re-applying records already applied, followed by new ones, ends where applying everything once, in order, ends. |
| PhotoTable.RunAppend | core/src/main/java/net/librec/data/convertor/appender/PhotoDataAppender.java:140-166 | Applying `a + b` is applying `a`, then `b` unless `a` aborted. |
| PhotoTable.AbortIsFinal | core/src/main/java/net/librec/data/convertor/appender/PhotoDataAppender.java:140-174 | Once a record throws, later records and later files change nothing. |
| PhotoTable.RunErrorIgnoresTable | core/src/main/java/net/librec/data/convertor/appender/PhotoDataAppender.java:142-158 | Whether records abort does not depend on what the matrix holds. |
| PhotoTable.ChunkingIrrelevant | core/src/main/java/net/librec/data/convertor/appender/PhotoDataAppender.java:131-135 | Files with the same text give the same records, wherever the reads end. |
| PhotoTable.AllRecordsPrefix | core/src/main/java/net/librec/data/convertor/appender/PhotoDataAppender.java:126-174 | The records of the first files open the records of the whole directory. |
| PhotoTable.AllRecords | core/src/main/java/net/librec/data/convertor/appender/PhotoDataAppender.java:126-174 | The records of a directory hold no LF, and the records of a single file are that file's records: each file starts with a fresh `bufferLine`, so no carry crosses files. |
| PhotoTable.AllRecordsStep | core/src/main/java/net/librec/data/convertor/appender/PhotoDataAppender.java:126-131 | One more file adds exactly its own records after those of the files before it. |
| BufferedLines.CompleteRecordsAreLines | core/src/main/java/net/librec/data/convertor/appender/PhotoDataAppender.java:137-139 | A read handles exactly the LF-terminated pieces of its buffer, except that a buffer of newlines only handles nothing, because `split` drops trailing empty pieces. |
| BufferedLines.LinesRoundTrip | core/src/main/java/net/librec/data/convertor/appender/PhotoDataAppender.java:136-139 | A file of non-empty lines, each ended by any mix of CR and LF (LF, CRLF, blank lines), reads back as exactly its lines, in order. An unterminated last fragment yields no record. |
| BufferedLines.LayoutLines | core/src/main/java/net/librec/data/convertor/appender/PhotoDataAppender.java:136-137 | Lines laid out with CR/LF endings split back, after CR becomes LF, into exactly those lines. |
| BufferedLines.LineAndBreak | core/src/main/java/net/librec/data/convertor/appender/PhotoDataAppender.java:136-137 | One line followed by its CR/LF ending reads back as exactly that line. |
| BufferedLines.ReadStep | core/src/main/java/net/librec/data/convertor/appender/PhotoDataAppender.java:133-169 | One read keeps the loop's invariant. The text read so far is the settled text followed by the new carry, and the records handled match however the text is cut. They are a prefix of the file's records. |
| BufferedLines.CarrySettles | core/src/main/java/net/librec/data/convertor/appender/PhotoDataAppender.java:138-168 | Keeping the carry moves the rest of the buffer into the settled text without changing which records the text holds. |
| BufferedLines.SettleIncomplete | core/src/main/java/net/librec/data/convertor/appender/PhotoDataAppender.java:167-168 | When the buffer does not end with LF, its last piece is a suffix of it. Carrying only that piece loses no record: a line cut by a read is handled once, whole. |
| BufferedLines.SettleFragment | core/src/main/java/net/librec/data/convertor/appender/PhotoDataAppender.java:139 | A fragment with no LF after the last newline holds no record of the current read. |
| BufferedLines.FragmentCarry | core/src/main/java/net/librec/data/convertor/appender/PhotoDataAppender.java:167-168 | The carried fragment starts right after the newline that ends the settled text. |
| BufferedLines.ReadGrows | core/src/main/java/net/librec/data/convertor/appender/PhotoDataAppender.java:136 | Appending a chunk and turning CR into LF grows the text read so far by that chunk. The records of the old carry stay a prefix of the new buffer's records. |
| BufferedLines.ReadSoFar | core/src/main/java/net/librec/data/convertor/appender/PhotoDataAppender.java:131-171 | The records met after any number of reads open the records of the whole file. |
| BufferedLines.SettledSplit | core/src/main/java/net/librec/data/convertor/appender/PhotoDataAppender.java:171 | When the reads end, the file's records are those of the settled text followed by those of the final carry. |
| BufferedLines.LinesAppend | core/src/main/java/net/librec/data/convertor/appender/PhotoDataAppender.java:137 | Text that ends at a newline, followed by text that starts a new line, splits into the lines of each, concatenated. |
| BufferedLines.LinesGrow | core/src/main/java/net/librec/data/convertor/appender/PhotoDataAppender.java:137 | Reading more text never takes back a terminated line. |
| BufferedLines.CompleteRecordsGrow | core/src/main/java/net/librec/data/convertor/appender/PhotoDataAppender.java:137-139 | The records one read handles are a prefix of those a read of more text handles. |
| BufferedLines.Lines | core/src/main/java/net/librec/data/convertor/appender/PhotoDataAppender.java:137 | No terminated line holds an LF. |
| BufferedLines.CompleteRecords | core/src/main/java/net/librec/data/convertor/appender/PhotoDataAppender.java:137-139 | No handled record holds an LF. |
| BufferedLines.Carry | core/src/main/java/net/librec/data/convertor/appender/PhotoDataAppender.java:138-168 | The carry is the whole buffer when it ends with LF; otherwise it is the text after the buffer's last LF, or the whole buffer when it has none, and holds no LF. |
| BufferedLines.LastFragmentUnique | core/src/main/java/net/librec/data/convertor/appender/PhotoDataAppender.java:167-168 | A buffer has only one unterminated last fragment, so the carry is fixed by that description. |
| BufferedLines.ReadSplitDetermined | core/src/main/java/net/librec/data/convertor/appender/PhotoDataAppender.java:137-168 | Any records and carry that satisfy the description of one read (the LF-terminated lines of the buffer, nothing for a buffer of newlines only; the whole buffer or its last fragment as carry) are exactly what `CompleteRecords` and `Carry` give. |
| BufferedLines.FileRecords | core/src/main/java/net/librec/data/convertor/appender/PhotoDataAppender.java:131-171 | The records of a whole file hold no LF, and a file with no CR and no LF yields no record at all: its only line is never terminated. |
| BufferedLines.BreakFreeText | core/src/main/java/net/librec/data/convertor/appender/PhotoDataAppender.java:136-139 | Text with no CR and no LF holds no complete record. |
| BufferedLines.LeadingBreakFile | core/src/main/java/net/librec/data/convertor/appender/PhotoDataAppender.java:136-139 | A file whose text opens with CR or LF and holds some other character yields the empty record first, because `split("(\n)+")` keeps the leading empty piece. |
| BufferedLines.BreaksOnlyFile | core/src/main/java/net/librec/data/convertor/appender/PhotoDataAppender.java:136-139 | A file that is empty or made of CR and LF only yields no record at all, because `split` drops the trailing empty pieces; such a file does not abort. |
| BufferedLines.LeadingNewlineRecord | core/src/main/java/net/librec/data/convertor/appender/PhotoDataAppender.java:137-139 | A buffer that opens with LF and holds some other character hands the empty record to the record loop first. |
| BufferedLines.LeadingNewlinePieces | core/src/main/java/net/librec/data/convertor/appender/PhotoDataAppender.java:137 | Text that opens with LF and holds some other character splits into an empty first piece followed by a non-empty one. |
| BufferedLines.PiecesOfNewlines | core/src/main/java/net/librec/data/convertor/appender/PhotoDataAppender.java:137 | A run of LFs splits into exactly two empty pieces. |
| BufferedLines.ConcatAppend | core/src/main/java/net/librec/data/convertor/appender/PhotoDataAppender.java:133-136 | The text of reads `a` then `b` is the text of `a` followed by that of `b`. |
| JavaText.Split | core/src/main/java/net/librec/data/convertor/appender/PhotoDataAppender.java:137 | No piece contains a delimiter character. When the text does not end with a delimiter, the last piece is the text after the last match. Its partner `SplitJoin` shows that splitting joined tokens gives them back. |
| JavaText.SplitJoin | core/src/main/java/net/librec/data/convertor/appender/PhotoDataAppender.java:142-147 | Non-empty tokens free of the delimiter, joined by one delimiter character, split back into exactly those tokens: `"a b".split("[ \t]+")` is `["a", "b"]` and `"1,2,3".split(",")` is `["1", "2", "3"]`. |
| JavaText.StripTrailingEmpty | core/src/main/java/net/librec/data/convertor/appender/PhotoDataAppender.java:137 | Drops exactly the trailing empty pieces: the result is a prefix, does not end with an empty piece, and everything dropped is empty. |
| JavaText.Pieces | core/src/main/java/net/librec/data/convertor/appender/PhotoDataAppender.java:137 | There is at least one piece, and no piece contains a delimiter character. Its partner `PiecesOfJoin` shows that scanning joined tokens yields exactly the tokens. |
| JavaText.PiecesOfJoin | core/src/main/java/net/librec/data/convertor/appender/PhotoDataAppender.java:137-147 | Scanning non-empty, delimiter-free tokens joined by one delimiter character yields exactly those tokens. |
| JavaText.PiecesOfFree | core/src/main/java/net/librec/data/convertor/appender/PhotoDataAppender.java:142 | Text without a delimiter is a single piece. |
| JavaText.PiecesEndDelimiter | core/src/main/java/net/librec/data/convertor/appender/PhotoDataAppender.java:137 | Text ending with a delimiter has an empty last piece. |
| JavaText.PiecesEndOther | core/src/main/java/net/librec/data/convertor/appender/PhotoDataAppender.java:167-168 | Text ending with anything else has a non-empty last piece. |
| JavaText.PiecesFirstNonEmpty | core/src/main/java/net/librec/data/convertor/appender/PhotoDataAppender.java:137 | Text that opens with a non-delimiter has a non-empty first piece. |
| JavaText.PiecesLastIsSuffix | core/src/main/java/net/librec/data/convertor/appender/PhotoDataAppender.java:168 | The last piece is the suffix of the text after the last delimiter. |
| JavaText.ScanAppend | core/src/main/java/net/librec/data/convertor/appender/PhotoDataAppender.java:136-137 | Splitting `s + t` is splitting `s` and then continuing through `t`. |
| JavaText.ScanKeeps | core/src/main/java/net/librec/data/convertor/appender/PhotoDataAppender.java:137 | More text never changes a closed piece and only extends the open one. |
| JavaText.ScanShift | core/src/main/java/net/librec/data/convertor/appender/PhotoDataAppender.java:137 | Text that does not open with a delimiter leaves the already closed pieces untouched. |
| JavaText.ScanInteriorNonEmpty | core/src/main/java/net/librec/data/convertor/appender/PhotoDataAppender.java:137 | With a `+` pattern only the first and the last piece can be empty, so blank lines between records yield no empty record. |
| JavaText.ReplaceCR | core/src/main/java/net/librec/data/convertor/appender/PhotoDataAppender.java:136 | Keeps the length, leaves no CR, turns each CR into LF and keeps every other character. |
| JavaText.ReplaceCRAppend | core/src/main/java/net/librec/data/convertor/appender/PhotoDataAppender.java:136 | Replacing CR distributes over concatenation, so it does not matter which read a CR arrives in. |
| JavaText.ReplaceCRKeeps | core/src/main/java/net/librec/data/convertor/appender/PhotoDataAppender.java:136 | Text without CR is unchanged. |
| JavaText.IsJavaWhitespace | core/src/main/java/net/librec/data/convertor/appender/PhotoDataAppender.java:86 | Space, tab, LF and CR are whitespace. Visible ASCII characters are not, nor are the no-break spaces U+00A0, U+2007 and U+202F. |
| JavaText.IsBlank | core/src/main/java/net/librec/data/convertor/appender/PhotoDataAppender.java:86 | Null and the empty string are blank, and so is text of spaces, tabs, LF and CR only. Text holding a visible ASCII character is not blank. |
| JavaText.Trim | core/src/main/java/net/librec/data/convertor/appender/PhotoDataAppender.java:142 | The trimmed text neither starts nor ends with a character at or below U+0020, and it is a slice of the input whose margins on both sides consist only of such characters. |
| JavaText.TrimKeeps | core/src/main/java/net/librec/data/convertor/appender/PhotoDataAppender.java:142 | Text that neither starts nor ends with a character at or below U+0020 is kept unchanged. |
| JavaText.TrimStart | core/src/main/java/net/librec/data/convertor/appender/PhotoDataAppender.java:142 | Removes exactly the leading characters at or below U+0020. |
| JavaText.TrimEnd | core/src/main/java/net/librec/data/convertor/appender/PhotoDataAppender.java:142 | Removes exactly the trailing characters at or below U+0020. |

## Left out

- The recommender that consumes the matrix, `SVPOIRecommender`, is not part of this model. It is floating-point gradient descent over library matrices. The two test cases only run whole jobs from property files.
- The directory walk (`Files.walkFileTree` and its visitor, :112-120) is a `FileTree` map from a path to its files. Each file is a sequence of chunks. The visiting order is taken as given. A path that is not in the map stands for the `IOException` of an unreadable directory. Failures to open or read one file (:127-133, :172-173) are not modelled.
- Byte I/O and decoding (`FileChannel`, `ByteBuffer`, `new String(bytes, 0, len)`, :127-135) are left out. Chunks are given as decoded text, so a multi-byte character cut by a read is not modelled.
- The 1 MiB read size `BSIZE` (:48) is not enforced. Any chunking is allowed, and `ChunkingIrrelevant` and `ReadFile` show that the result does not depend on it.
- `Double.parseDouble` (:152) is the `Parser` parameter: a value, or `None` where Java throws `NumberFormatException`. Feature values are opaque reals.
- PhotoTable.RecordEffect: `DenseVector` and `DenseMatrix.setRow` (:156-158) belong to a library that is not part of this model. The model assumes two things:
  - A vector whose length is not 1000 ends the ingestion with `WrongRowLength`.
  - An inner id outside the matrix's rows ends it with `RowOutOfRange`.
  - What the library does in these cases (padding, truncation or its own exception) is therefore not captured.
- A null value in the item map (`itemIds.get(item)` unboxed at :146) is not modelled: inner ids are plain integers.
- Exceptions are returned as an `IngestError` instead of being thrown. Rows written before the exception stay in the matrix, as in Java.
- Unused code is not modelled: the file sizes and `allFileSize` (:111, :115, :121-124), `dataTable` and `colMap` (:106-108, :175), and `getUserAppender`, which returns null (:192-194).
