# Delimited-text tokenizer and HDFS file-format catalogue

This project models two parts of the Impala query engine and proves properties of both.

**The delimited-text parser** (`DelimitedTextParser`, be/src/exec/delimited-text-parser.h) is used by the scanner of text, sequence and RC files. It walks a byte buffer and finds where each field and each row starts and ends. It has four delimiter roles: tuple, field, collection item and escape. A NUL character disables a role. An escape character turns the delimiter after it into data. The parser writes `(start, len)` pairs into an array the caller provides, and a negative `len` means the field holds escapes. Between calls it keeps four pieces of state:
- the column cursor;
- whether the current column holds an escape;
- whether the last byte was an unconsumed escape;
- whether the last buffer ended in a `'\r'` row delimiter. A `'\n'` at the start of the next buffer then completes the `"\r\n"` instead of ending an empty row.

The model has three layers:
- **`DelimitedTextSpec`** is the scalar, byte-by-byte semantics as pure functions. `Step` consumes one byte and `Run` folds it over a buffer. `SingleTuple` is the single-record parse. Independent descriptions of the same behaviour sit beside them: `EscapedAt` (parity of escape runs), `PendingCR`, `RowEndAt`/`RowEndsOf` (the row ends, described without the state machine), `UnescapedTupleDelim` and `SyncAt`.
- **`DelimitedText.DelimitedTextParser`** is a class whose fields are the parser's state, with methods that write into `array`s the way the C++ writes into the caller's arrays. Each method is proved to compute exactly what the spec functions say. Helper methods are the bodies of the loops.
- **`DelimitedTextCounts`, `DelimitedTextProofs`, `DelimitedTextColumns` and `DelimitedTextFields`** relate the spec functions to one another and to the independent descriptions. They cover field counts, row ends, escape parity, `"\r\n"` handling, re-chunking of a buffer at any split point, what a negative field length says about the field's bytes, where each field begins and ends in the bytes, and single-record parsing against row parsing.

The optional value both parts use is `Wrappers.Option`.

Pointers (`char*`) are integer offsets. A buffer is its byte sequence together with the offset of its first byte. `HdfsScanNode` becomes two constructor inputs: the number of partition keys, and one materialization flag per column.

**The file-format catalogue** (`HdfsFileFormat`, fe/src/main/java/com/cloudera/impala/catalog/HdfsFileFormat.java) is the fixed table from Hive input-format class names to the four formats. It comes with a membership test, a lookup that throws on null or unknown names, and the translation to the Thrift enum. It is modelled in module `HdfsFileFormats`. Java `null` is `None`. The two exceptions are `FormatResult` variants.

be/src/exec/delimited-text-parser.cc is not part of this model. The scalar loop follows the header where it speaks: the delimiter roles, the escape flags, the `last_row_delim_offset_` protocol, `ReturnCurrentColumn` and the `FillColumns`/`AddColumn` documentation. Elsewhere the model fixes the choices listed under "## Left out" as "Fixed by the model".

## Model

| member | source | states |
|---|---|---|
| DelimitedText.DelimitedTextParser.constructor | be/src/exec/delimited-text-parser.h:15-32 | the parser keeps the given delimiters and column routing; it starts at a tuple start with no escape and no '\r' pending, so the first call begins as a fresh tuple; two active roles on the same character are refused, but a '\r' escape or field delimiter beside a '\n' tuple delimiter is accepted and then plays two roles (CarriageReturnEscapeEndsRow) |
| DelimitedText.DelimitedTextParser.ParserReset | be/src/exec/delimited-text-parser.h:36-37 | after a reset the cursor is at the first non-partition column, both escape flags are clear and no '\r' is pending: the next call starts exactly like the start of a tuple |
| DelimitedText.DelimitedTextParser.AtTupleStart | be/src/exec/delimited-text-parser.h:39-40 | true exactly when the cursor is at the first non-partition column, where no materialized field of the tuple has been emitted yet |
| DelimitedText.DelimitedTextParser.ReturnCurrentColumn | be/src/exec/delimited-text-parser.h:99-104 | true only inside the schema (the flags are never read out of bounds) and exactly when the current column is materialized, i.e. when closing it adds one to the materialized-field count |
| DelimitedText.DelimitedTextParser.AddColumn | be/src/exec/delimited-text-parser.h:123-135 | writes one location exactly when the column is returned, with the length negated when escapes are processed and the column holds one; moves the column start past the delimiter and the cursor to the next column; clears the has-escape flag; leaves every other array slot alone |
| DelimitedText.DelimitedTextParser.PadColumns | be/src/exec/delimited-text-parser.h:110-113 | appends a zero-length field for every materialized column from the cursor to the end of the schema, and nothing else, leaving the cursor at the end of the schema |
| DelimitedText.DelimitedTextParser.FillColumns | be/src/exec/delimited-text-parser.h:106-117 | appends the trailing column (on the caller's cursor, or on a null dummy cursor) and then zero-length padding; increments the field count by exactly the number of fields added; does nothing past the end of the schema |
| DelimitedText.DelimitedTextParser.ConsumeFieldByte | be/src/exec/delimited-text-parser.h:68-77 | one byte of a single record changes the parser and its outputs exactly as one Step without tuple detection |
| DelimitedText.DelimitedTextParser.CloseTuple | be/src/exec/delimited-text-parser.h:44-66 | an unescaped row delimiter closes the column, pads the tuple, records its position as a row end and restarts the cursor: exactly EndTuple |
| DelimitedText.DelimitedTextParser.ConsumeByte | be/src/exec/delimited-text-parser.h:44-66 | one byte of a row scan changes the parser and its outputs exactly as one Step in tuple mode, with the pending '\r' kept as a count of bytes left |
| DelimitedText.DelimitedTextParser.ConsumeTupleDelim | be/src/exec/delimited-text-parser.h:180-187 | an unescaped tuple delimiter ends a row, except a '\n' right after a pending '\r', which only moves the column start; a '\r' becomes pending |
| DelimitedText.DelimitedTextParser.ConsumeOtherByte | be/src/exec/delimited-text-parser.h:15-29 | an unescaped field or collection-item delimiter closes a column; an escape toggles the escape flag and marks the column; any other byte only clears the flag |
| DelimitedText.DelimitedTextParser.ScanSingleTuple | be/src/exec/delimited-text-parser.h:68-77 | the single-record loop leaves the parser and outputs equal to Run without tuple detection from a tuple start, with the field count equal to the materialized columns passed |
| DelimitedText.DelimitedTextParser.ParseSingleTuple | be/src/exec/delimited-text-parser.h:68-77 | writes exactly one location per materialized column, equal to SingleTuple: the columns closed by delimiters, the trailing column and the padding; no byte ends a tuple |
| DelimitedText.DelimitedTextParser.ScanRows | be/src/exec/delimited-text-parser.h:52-66 | the row loop equals Run in tuple mode over the consumed bytes; it stops early only after max_tuples rows, and then on the last row's delimiter at a tuple start |
| DelimitedText.DelimitedTextParser.ParseFieldLocations | be/src/exec/delimited-text-parser.h:44-66 | the row ends, field locations, next column start and carried state equal Run over the consumed bytes; at most max_tuples rows, with early stops only at the cap, right after a row end; the materialized-field count identity; the next column start lies within the consumed part of the buffer |
| DelimitedText.DelimitedTextParser.FindFirstInstance | be/src/exec/delimited-text-parser.h:79-84 | -1 exactly when no tuple delimiter is left unmasked by an odd run of escapes; otherwise the offset just past the first such delimiter |
| DelimitedText.DelimitedTextParser.FindSyncBlock | be/src/exec/delimited-text-parser.h:86-97 | a position before the end of the range holds four 0xff bytes followed by the sync marker, and it is the first one from the start position; when the range holds none, the result is at or beyond the end of the range (its end, or the start position when that is already past it) |
| DelimitedText.FieldsFitCapacity | be/src/exec/delimited-text-parser.h:52-60 | while at most max_tuples rows have ended, and the cap leaves the cursor at a tuple start, the fields emitted fit in max_tuples times the materialized-column count |
| DelimitedTextCounts.MaterializedBeforeMonotone | be/src/exec/delimited-text-parser.h:193-200 | the number of materialized columns before a column never decreases along the row |
| DelimitedTextCounts.MaterializedBeforeSaturates | be/src/exec/delimited-text-parser.h:99-104 | columns past the schema add no materialized field |
| DelimitedTextCounts.MaterializedBeforeBounded | be/src/exec/delimited-text-parser.h:193-200 | no prefix of a row has more materialized fields than a whole tuple |
| DelimitedTextCounts.PaddingFacts | be/src/exec/delimited-text-parser.h:110-111 | padding from column j adds exactly the materialized columns not yet reached, all of length 0 |
| DelimitedTextCounts.FillFieldsFacts | be/src/exec/delimited-text-parser.h:106-117 | FillColumns adds exactly the materialized columns from the cursor on: the trailing column first when it is materialized, with its stored length; every other added field has length 0 |
| DelimitedTextCounts.EndTupleFacts | be/src/exec/delimited-text-parser.h:44-66 | ending a tuple adds one row end at the delimiter, completes the tuple's materialized fields, resets the cursor and starts the next column after the delimiter |
| DelimitedTextCounts.StepRowEnd | be/src/exec/delimited-text-parser.h:180-187 | a byte adds a row end (at its own position) exactly when tuples are detected and it is an unescaped tuple delimiter that does not complete a "\r\n" |
| DelimitedTextCounts.StepCount | be/src/exec/delimited-text-parser.h:58-60 | one byte keeps the field count equal to full tuples times the materialized columns plus the materialized columns passed in the open tuple |
| DelimitedTextCounts.RunExtends | be/src/exec/delimited-text-parser.h:58-62 | a scan only appends fields and row ends and never moves the cursor into the partition columns |
| DelimitedTextCounts.RunFacts | be/src/exec/delimited-text-parser.h:58-60 | over any buffer the number of materialized fields equals rows ended times the fields per tuple, corrected by the cursor's start and end positions; without tuple detection no row ends |
| DelimitedTextCounts.RunRowEndAt | be/src/exec/delimited-text-parser.h:64 | every row end reported is inside the buffer, on a tuple-delimiter byte |
| DelimitedTextCounts.RunPositions | be/src/exec/delimited-text-parser.h:61-62 | the next column start never moves backwards and never passes the scanned position |
| DelimitedTextProofs.StepLastEscape | be/src/exec/delimited-text-parser.h:177-178 | after a byte, an escape is pending exactly when the byte is an escape that was not itself escaped |
| DelimitedTextProofs.EscapeParity | be/src/exec/delimited-text-parser.h:173-178 | the carried escape flag equals the parity of the run of escape bytes ending at the current position, continued across buffers |
| DelimitedTextProofs.StepAfterCR | be/src/exec/delimited-text-parser.h:180-187 | a '\r' is pending after a byte exactly when the byte is an unescaped '\r' acting as a row delimiter |
| DelimitedTextProofs.PendingCRParity | be/src/exec/delimited-text-parser.h:180-187 | the scanner's pending-'\r' flag equals PendingCR, defined from the bytes and the carried state alone |
| DelimitedTextProofs.RowEndsMatch | be/src/exec/delimited-text-parser.h:44-66 | the row ends the scanner reports are exactly RowEndsOf: the unescaped tuple delimiters that do not complete a "\r\n", in order |
| DelimitedTextProofs.RowEndIsUnescaped | be/src/exec/delimited-text-parser.h:79-84 | from a clean state, every row end is an unescaped tuple delimiter in FindFirstInstance's sense |
| DelimitedTextProofs.RowEndsOfMembers | be/src/exec/delimited-text-parser.h:44-66 | every listed row end lies in the buffer and satisfies RowEndAt |
| DelimitedTextProofs.RunPrefix | be/src/exec/delimited-text-parser.h:44-66 | the scan of a prefix depends on nothing after it |
| DelimitedTextProofs.RunAppend | be/src/exec/delimited-text-parser.h:44-66 | scanning a concatenation equals scanning the second part from the state the first part leaves |
| DelimitedTextProofs.RunPrepend | be/src/exec/delimited-text-parser.h:44-66 | output already emitted never influences the rest of a scan |
| DelimitedTextProofs.RechunkAtBoundary | be/src/exec/delimited-text-parser.h:61-62 | when the first buffer ends on a column boundary, two calls with the state carried between them give the same fields and row ends as one call over both buffers; a split inside a column is RechunkAnywhere |
| DelimitedTextProofs.StepClosesColumn | be/src/exec/delimited-text-parser.h:123-135 | an unescaped delimiter moves the next column start just past itself |
| DelimitedTextProofs.EndsOnBoundary | be/src/exec/delimited-text-parser.h:61-62 | a buffer whose last byte is an unescaped delimiter leaves the next column start at the end of the buffer |
| DelimitedTextProofs.CrEndsFirstBuffer | be/src/exec/delimited-text-parser.h:180-187 | a buffer ending in an unescaped '\r' ends a row at that '\r' and leaves a '\r' pending |
| DelimitedTextProofs.LfAfterPendingCR | be/src/exec/delimited-text-parser.h:184-186 | with a '\r' pending, a leading '\n' ends no row |
| DelimitedTextProofs.CrLfSplitAcrossBuffers | be/src/exec/delimited-text-parser.h:180-187 | a "\r\n" split across two buffers is one row delimiter at the '\r', and the two calls give exactly the one-buffer result |
| DelimitedTextProofs.SingleTupleFieldCount | be/src/exec/delimited-text-parser.h:70-72 | a single record always yields one field per materialized column |
| DelimitedTextProofs.RunIgnoresTupleDelim | be/src/exec/delimited-text-parser.h:73-74 | without tuple detection the tuple delimiter has no influence on the scan |
| DelimitedTextProofs.SingleTupleIgnoresTupleDelim | be/src/exec/delimited-text-parser.h:73-74 | ParseSingleTuple's result does not depend on the tuple delimiter |
| DelimitedTextProofs.PaddingDependsOnSchemaOnly | be/src/exec/delimited-text-parser.h:110-111 | padding depends only on the column flags, not on the delimiters |
| DelimitedTextProofs.RunWithoutTupleDelims | be/src/exec/delimited-text-parser.h:73-74 | on bytes with no tuple delimiter, the row scan and the single-record scan coincide |
| DelimitedTextProofs.RunWithoutDetectionClearsCR | be/src/exec/delimited-text-parser.h:180-187 | without tuple detection a '\r' never becomes pending |
| DelimitedTextProofs.FillFieldsWithoutColumnIsPadding | be/src/exec/delimited-text-parser.h:110-111 | FillColumns with no last column and length 0 is pure padding on the null dummy cursor |
| DelimitedTextProofs.EndTupleAfterRecord | be/src/exec/delimited-text-parser.h:106-117 | ending a row at a delimiter emits the same fields as FillColumns called with the open column as the trailing one |
| DelimitedTextProofs.SingleTupleMatchesTupleScan | be/src/exec/delimited-text-parser.h:68-77 | a record without tuple delimiters parsed alone gives the same fields as the row scan of that record followed by one tuple delimiter |
| DelimitedTextColumns.RunColumnEscapes | be/src/exec/delimited-text-parser.h:173-175 | when the escape character is data and the column starts clean, the has-escape flag is set exactly when an escape byte lies between the open column's start and the scanned position, and every closed field is negative exactly when escapes are processed and its span holds an escape |
| DelimitedTextColumns.NegativeLengthIffEscaped | be/src/exec/delimited-text-parser.h:125-127 | over a whole buffer, a field's length is negative exactly when escapes are processed and an escape byte lies inside the field's span, and the carried flag says the same of the open column; needs the escape character not to be a delimiter, and a call that starts with no escape carried in the open column |
| DelimitedTextColumns.CarriageReturnEscapeEndsRow | be/src/exec/delimited-text-parser.h:173-187 | with '\n' rows and a '\r' escape, the accepted configuration breaks that side condition: "a\r" ends a row at the '\r' and reports the field (0, -1), with no escape in its span |
| DelimitedTextColumns.RunShifted | be/src/exec/delimited-text-parser.h:61-62 | two scans that differ only in where the open column starts stay equal except for that column: while it is open its start is off by d; once closed, its field is the same field with d more bytes in front, with the same escape sign whenever its part after the split is non-empty; an empty part leaves the sign open |
| DelimitedTextColumns.RechunkAnywhere | be/src/exec/delimited-text-parser.h:44-66 | for a split at any byte, two calls with the carried state agree with one call over both buffers on the row ends, the cursor and every flag, and on every field but the straddling one; the second call reports that one from the second buffer's start, d bytes short, and the caller must prepend the d bytes the first call left open |
| DelimitedTextColumns.EmptyTailDropsEscapeSign | be/src/exec/delimited-text-parser.h:125-127 | a column that straddles two calls and is empty after the split is stored by the second call with length 0, losing the negative sign the one-call scan gives it, although the carried has-escape flag is set |
| DelimitedTextColumns.CrLfSplitByFirstInstance | be/src/exec/delimited-text-parser.h:79-84 | FindFirstInstance stops just past the '\r' of a "\r\n"; scanned whole the pair is one row end, but a scan restarted after it from a reset parser sees the '\n' as a second, empty row |
| DelimitedTextFields.RunOpenColumn | be/src/exec/delimited-text-parser.h:44-62 | after any prefix of a buffer scanned from a fresh column at its first byte, the escape flag is the bytes' escape parity, the open column starts inside the prefix and holds no closing byte, and every stored field lies between closing bytes |
| DelimitedTextFields.FieldsBetweenDelimiters | be/src/exec/delimited-text-parser.h:44-62 | every field ParseFieldLocations stores with a non-zero length lies inside the consumed bytes, ends right before a field or row delimiter no escape masks, and holds no such delimiter: an escaped delimiter is data; the next column start is in the buffer and the open column holds no closing byte |
| HdfsFileFormats.ClassName | fe/src/main/java/com/cloudera/impala/catalog/HdfsFileFormat.java:35-39 | every format has a class name in the table, and the table maps it back to that format |
| HdfsFileFormats.IsHdfsFormatClass | fe/src/main/java/com/cloudera/impala/catalog/HdfsFileFormat.java:44-46 | true exactly for the four input-format class constants, equivalently for the class name of some format; false for null |
| HdfsFileFormats.FromJavaClassName | fe/src/main/java/com/cloudera/impala/catalog/HdfsFileFormat.java:52-58 | null fails the precondition check; a supported name gives the format whose class name it is; any other name is rejected with the name as the message |
| HdfsFileFormats.FromClassNameRoundTrip | fe/src/main/java/com/cloudera/impala/catalog/HdfsFileFormat.java:35-58 | looking up the class name of any format returns that format |
| HdfsFileFormats.ClassNameRoundTrip | fe/src/main/java/com/cloudera/impala/catalog/HdfsFileFormat.java:52-58 | a supported class name is recovered from the format it is looked up to |
| HdfsFileFormats.ValidFormatsIsBijection | fe/src/main/java/com/cloudera/impala/catalog/HdfsFileFormat.java:35-39 | the table has four entries, covers all four formats and maps distinct names to distinct formats |
| HdfsFileFormats.ToThriftInjective | fe/src/main/java/com/cloudera/impala/catalog/HdfsFileFormat.java:60-73 | toThrift is total, and two formats have the same Thrift value exactly when they are the same format |

## Left out

- The SSE4.2 path (`ParseSse`, the search registers, and the `low_mask_`/`high_mask_` escape tables) is not modelled: it is a hardware-intrinsic implementation that must match the scalar semantics modelled here.
- `HdfsScanNode`, the parse timer and `Status` are foreign types. The scan node is replaced by the constructor's partition-key count and materialization flags. No method reports a failing status.
- `ParserInit`, the destructor and the `escape_char()` accessor are not modelled: they only copy settings or free memory.
- The constructor: the distinctness of the active delimiters is a precondition. The fatal configuration error it stands for is not modelled. The precondition does not refuse a '\r' escape or field delimiter beside a '\n' tuple delimiter, since the header does not; such a '\r' also ends rows.
- NegativeLengthIffEscaped: the side condition that the escape character is neither a field nor a row delimiter is needed. CarriageReturnEscapeEndsRow shows the result when it fails.
- NegativeLengthIffEscaped: the call must start with no escape carried in the open column. The column that straddles the previous buffer is therefore not covered, and its sign is not tied to the bytes of either call.
- RunShifted: the straddling column keeps its escape sign only when its part after the split is non-empty. With an empty part the second call stores length 0 (a negated 0), and the sign is lost (EmptyTailDropsEscapeSign). A caller that joins such a column must take the escape from the carried has-escape flag.
- ScanRows, ParseFieldLocations: `max_tuples` must be at least 1. The header does not forbid 0, and what the scan does with a cap of 0 is not modelled.
- Fixed by the model: a lone '\r' ends a row exactly when the tuple delimiter is '\n' (IsTupleDelim). The header speaks of a '\r' row delimiter only in the `last_row_delim_offset_` comment and does not say when a '\r' is one.
- Fixed by the model: padding fields sit on the null dummy cursor with starts 0, 1, 2, …, unrelated to the buffer. Only their zero lengths carry meaning.
- Fixed by the model: ParseSingleTuple resets the cursor and clears both escape flags on entry. The header does not say what happens to them.
- Fixed by the model: lengths, offsets and the '\r' offset are fixed-width integers in the C++ but unbounded `int` here. Overflow of those widths is not modelled.
- CrLfSplitByFirstInstance: the header is silent on whether FindFirstInstance should skip the '\n' of a "\r\n". The model keeps the plain reading, which stops just past the '\r'. A caller that resumes there with a reset parser gets one extra empty row.
- FindSyncBlock: the `ByteStream` reads are modelled as a search over an in-memory byte sequence from a start position. I/O errors are not modelled. When the data ends inside the range without a marker, the result is the end of the range, which can lie past the end of the data.
- `num_cols_` is modelled as the length of the materialization flags, indexed by absolute column (partition columns included), as `ReturnCurrentColumn` indexes them. This departs from the header's comment on `num_cols_` (line 193), which calls it the number of non-partition columns. The model follows how `column_idx_` is compared with it.
- ConsumeTupleDelim: during a call, the pending '\r' is recorded as the number of bytes still to scan, and the first byte is compared against the buffer's length. The header describes the equivalent protocol as "one more than the size of the buffer", an offset counted from one position further on. Between calls, 0 means pending and -1 means none, as in the header.
- FillColumns: the trailing column is emitted whenever the cursor is inside the schema, also when `len` is 0. In that case it is an empty field, which the header describes as the no-last-column case.
- ToThrift: the Thrift enum's integer values are not modelled, only the constants. The `default` branch that throws is unreachable for a Dafny datatype, so it is left out.
- The rest of the repository (the web path handlers, the progress updater, the HDFS connection cache) is not modelled: it is I/O, concurrency and floating point around foreign libraries.
