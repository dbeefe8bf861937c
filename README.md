# chdb-java result set, modelled in Dafny

The JDBC driver of chdb runs a query in the embedded ClickHouse engine. It gets the whole
result back as one Arrow IPC stream. `ChdbResultSet` turns that stream of columnar batches
into a forward-only, row-at-a-time cursor. It loads one batch at a time and reads scalar
values by 1-based column index.

This project models that cursor:

- `errors.dfy` (`Errors`): the exceptions the result set throws, as a `SqlError` value.
- `arrow.dfy` (`Arrow`): the Arrow side, as values. A `Batch` is a row count plus typed
  vectors (`IntVector`, `BigIntVector`, `OtherVector`), and an Arrow null is a `None` cell.
  A `StreamReader` hands out the batches of the stream in order. Its stream either ends
  cleanly or turns out to be undecodable after its last good batch.
- `text.dfy` (`Text`): the decimal text `Integer.toString`/`Long.toString` give a cell.
  This is what `getString` returns for integer vectors.
- `cursor_model.dfy` (`CursorModel`): `next()` as a function `Advance` on a `Snapshot` of
  the result set's fields. Beside it are the invariant `Inv` that `next()` keeps and
  `RowsReported`, the number of times `next()` answers true over a stream. The counting
  lemmas live here too.
- `result_set.dfy` (`ResultSet`): the class `ChdbResultSet`. Its fields are those of the
  Java class: `cursor`, `loadedRows`, the reader, `batch` (`None` for Java's null) and
  `batchCursor`. `Next` and `Close` are methods. `checkColumnIndex`, `getString`,
  `getInt` and `getLong` are functions that read the object. `ReadAll` is the client loop
  of the driver's test, reading `getString(1)` on every row.

The class follows the code as written, including its two quirks:

- `getLong` looks the column up with the 1-based index itself.
- A zero-row batch is reported as a row.

Corrected definitions sit beside the class, with their properties proved (see
"## Findings"). Four behaviours of the code, as written, shape the model:

- Opening never fails. The Arrow reader is created lazily, so an undecodable buffer
  surfaces as an exception from `next()` (`Err(StreamFailure)`).
- `close()` has no guard against a second call: it closes the batch and the reader
  again, where the JDBC `ResultSet.close()` contract makes closing a closed result set a
  no-op. `Close` counts each such close and claims nothing about what a second one
  releases.
- `next()` tests the global `cursor` against `loadedRows`, not the offset within the
  batch. The invariant "`batchCursor` is a row of the loaded batch" therefore holds only
  when no batch is empty (`CurrentRowInBatch`).
- `getLong` is modelled as written. `GetLongIntended` is the evidently intended version.

## Model

| member | source | states |
|---|---|---|
| `ResultSet.ChdbResultSet.constructor` | src/main/java/org/chdb/jdbc/ChdbResultSet.java:23-36 | a new result set is before the first row: cursor -1, no rows loaded, no batch, the reader at the start of the stream, nothing read yet |
| `ResultSet.ChdbResultSet.Next` | src/main/java/org/chdb/jdbc/ChdbResultSet.java:45-65 | while rows remain, both counters go up by one and nothing else changes; once the batch is used up, the next batch is installed, its rows are added to loadedRows, the old batch is closed and batchCursor resets to 0; at the end of the stream the answer is false (or the reader's failure) and nothing changes; the object invariant and the stream are kept |
| `ResultSet.ChdbResultSet.Close` | src/main/java/org/chdb/jdbc/ChdbResultSet.java:182-188 | close releases the loaded batch (if any) and the reader; on an open result set, every batch it ever loaded has then been released exactly once |
| `ResultSet.ChdbResultSet.CheckColumnIndex` | src/main/java/org/chdb/jdbc/ChdbResultSet.java:80-88 | passes exactly when a batch is loaded and 1 <= idx <= column count; otherwise throws the out-of-bound error carrying idx and the count, or a null dereference before any batch is loaded |
| `ResultSet.ChdbResultSet.GetString` | src/main/java/org/chdb/jdbc/ChdbResultSet.java:91-94 | with no type test, succeeds exactly when the column index passes the check and the cell at batchCursor of column c-1 is present and non-null; the result is that cell's text (its decimal form for integer vectors) |
| `ResultSet.ChdbResultSet.GetInt` | src/main/java/org/chdb/jdbc/ChdbResultSet.java:112-119 | succeeds exactly when column c-1 is an int vector with a non-null cell at batchCursor, and returns that stored value (a 32-bit value in a well-formed batch); a failed index check is passed on, and any other vector type is the "is not int" error naming its field |
| `ResultSet.ChdbResultSet.GetLong` | src/main/java/org/chdb/jdbc/ChdbResultSet.java:122-129 | as written: after the same 1-based check it reads column c (0-based); c == column count fails with a vector index out of range; otherwise it succeeds exactly when column c is a BIGINT vector with a non-null cell at batchCursor |
| `ResultSet.ChdbResultSet.GetLongIntended` | src/main/java/org/chdb/jdbc/ChdbResultSet.java:122-129 | intended getLong: succeeds exactly when column c-1 is a BIGINT vector with a non-null cell at batchCursor, returning that 64-bit value; other types give the "is not long" error |
| `ResultSet.GetStringAgreesWithGetInt` | src/main/java/org/chdb/jdbc/ChdbResultSet.java:91-119 | wherever getInt succeeds, getString on the same column succeeds with text that parses back to the same value |
| `ResultSet.GetStringAgreesWithGetLong` | src/main/java/org/chdb/jdbc/ChdbResultSet.java:91-129 | wherever the intended getLong succeeds, getString on the same column gives text that parses back to the same value |
| `ResultSet.GetLongReadsNextColumn` | src/main/java/org/chdb/jdbc/ChdbResultSet.java:124 | for 1 <= c < column count, getLong(c) as written answers exactly what the intended getLong answers for c + 1 |
| `ResultSet.GetLongCounterexample` | src/main/java/org/chdb/jdbc/ChdbResultSet.java:122-129 | with one BIGINT column holding 42, getLong(1) passes the bounds check and then fails the vector lookup; the intended getLong returns 42 |
| `ResultSet.EmptyBatchRowHasNoValues` | src/main/java/org/chdb/jdbc/ChdbResultSet.java:52-58 | on the row next() reports for a zero-row batch, getInt, getLong and getString all fail |
| `ResultSet.ReadAll` | src/test/java/ChdbJdbcTest.java:27-36 | the loop `while (rs.next())` reads getString(1) on each row and ends with the first error of next() or getString; when it completes, it ran once per answer ahead on a cleanly ending stream, has loaded every batch, and after close every batch has been released |
| `ResultSet.AtEndAllLoaded` | src/main/java/org/chdb/jdbc/ChdbResultSet.java:59-61 | when no true answer is ahead, every batch of the stream has been loaded |
| `CursorModel.RowsReported` | src/main/java/org/chdb/jdbc/ChdbResultSet.java:46-58 | the number of true answers a stream produces is at least its row count and at least its batch count |
| `CursorModel.CursorAtLoad` | src/main/java/org/chdb/jdbc/ChdbResultSet.java:46-58 | when next() falls through to a load, cursor stands on the last answer the batches loaded so far give |
| `CursorModel.AdvanceFastPath` | src/main/java/org/chdb/jdbc/ChdbResultSet.java:46-50 | the in-batch step keeps the invariant and uses up exactly one answer ahead |
| `CursorModel.AdvanceLoad` | src/main/java/org/chdb/jdbc/ChdbResultSet.java:52-58 | loading the next batch keeps the invariant (loadedRows is the total of the loaded batches, batch is the last of them) and uses up exactly one answer ahead |
| `CursorModel.AdvanceAtEnd` | src/main/java/org/chdb/jdbc/ChdbResultSet.java:59-61 | when the batch is used up and the stream has no more batches, no answer is ahead |
| `CursorModel.AdvanceStep` | src/main/java/org/chdb/jdbc/ChdbResultSet.java:45-65 | every call of next() keeps the invariant and the stream; a true answer advances cursor by exactly one; with no answer ahead it reports the end and changes nothing |
| `CursorModel.AnswersUntilEnd` | src/main/java/org/chdb/jdbc/ChdbResultSet.java:45-65 | from any reachable state, next() answers true exactly RowsAhead times in a row and then reports the end of the stream |
| `CursorModel.CountFromStart` | src/main/java/org/chdb/jdbc/ChdbResultSet.java:23-65 | from a new result set, next() answers true RowsReported(stream) times and then false (or the reader's failure); with no zero-row batch that is exactly the stream's row count |
| `CursorModel.CurrentRowInBatch` | src/main/java/org/chdb/jdbc/ChdbResultSet.java:46-58 | with no zero-row batch, 0 <= batchCursor < rowCount(batch) and cursor - batchCursor == loadedRows - rowCount(batch) |
| `CursorModel.ReportedOfNonEmpty` | src/main/java/org/chdb/jdbc/ChdbResultSet.java:55-57 | with no zero-row batch, the number of true answers equals the number of rows |
| `CursorModel.ReportedPrefixMonotone` | src/main/java/org/chdb/jdbc/ChdbResultSet.java:52-58 | each further batch adds at least one true answer |
| `CursorModel.NoInt32Overflow` | src/main/java/org/chdb/jdbc/ChdbResultSet.java:23-27 | while a stream gives fewer than 2^31 answers, cursor, loadedRows and batchCursor stay within Java's int range, so they never wrap |
| `CursorModel.EmptyBatchCounterexample` | src/main/java/org/chdb/jdbc/ChdbResultSet.java:52-58 | a zero-row batch and then a three-row batch: the first next() reports a row of the empty batch, the fourth answers false, and the third row of the second batch is never current |
| `CursorModel.SkippingStep` | src/main/java/org/chdb/jdbc/ChdbResultSet.java:45-65 | intended next(), which passes over zero-row batches: each true answer lands on a row of the loaded batch and uses up one row of the stream |
| `CursorModel.SkippingCountsRows` | src/main/java/org/chdb/jdbc/ChdbResultSet.java:45-65 | intended next(): from any state it keeps, it answers true once per remaining row and then reports the end |
| `CursorModel.SkippingCountFromStart` | src/main/java/org/chdb/jdbc/ChdbResultSet.java:45-65 | intended next(): from a new result set it answers true exactly Total(stream) times, whatever the batch sizes, then reports the end |
| `Arrow.LoadsInStreamOrder` | src/main/java/org/chdb/jdbc/ChdbResultSet.java:52-54 | k successive loads from position p hand out exactly the batches p .. min(p + k, n) - 1 of the stream, each once and in stream order; once every batch is out, the reader stays where it is and every further load answers end of stream, or a failure for an undecodable stream |
| `Arrow.TotalPrefixMonotone` | src/main/java/org/chdb/jdbc/ChdbResultSet.java:55 | loadedRows never exceeds the total rows of the stream |
| `Text.Digits` | src/main/java/org/chdb/jdbc/ChdbResultSet.java:93 | the text of a non-negative value is a non-empty run of decimal digits with no leading zero |
| `Text.DecimalRoundTrip` | src/main/java/org/chdb/jdbc/ChdbResultSet.java:93 | the decimal text of an integer cell parses back to the cell's value |

## Findings

| source | as written | input that shows it | evidently intended | confidence | as-written member | corrected member |
|---|---|---|---|---|---|---|
| src/main/java/org/chdb/jdbc/ChdbResultSet.java:124 | getLong checks the index as 1-based, then looks the vector up with the same index as 0-based | a batch with a single BIGINT column holding 42: getLong(1) fails with an unchecked exception from getVector | look the vector up at columnIndex - 1, as getInt and getString do | high; not executed | `ResultSet.ChdbResultSet.GetLong`, shown by `ResultSet.GetLongCounterexample` and `ResultSet.GetLongReadsNextColumn` | `ResultSet.ChdbResultSet.GetLongIntended`, with `ResultSet.GetStringAgreesWithGetLong` |
| src/main/java/org/chdb/jdbc/ChdbResultSet.java:46-58 | the in-batch test compares the global cursor with loadedRows, and every load answers true | a zero-row batch followed by a three-row batch: next() answers true three times, once for the empty batch, and the second batch's third row is never current | pass over zero-row batches, so next() answers true once per row | medium (only matters if the engine emits zero-row batches); not executed | `CursorModel.Advance`, shown by `CursorModel.EmptyBatchCounterexample` and `ResultSet.EmptyBatchRowHasNoValues` | `CursorModel.AdvanceSkippingEmpty`, with `CursorModel.SkippingCountFromStart` |

## Left out

- Decoding of the Arrow IPC stream format (ArrowStreamReader, VectorSchemaRoot, the vectors' buffers). A stream is given as its sequence of decoded batches plus how it ends.
- Aliasing in the Arrow reader. The reader hands back one VectorSchemaRoot for every batch, so the close of the previous batch (line 53) acts on the root the new batch was just loaded into. The model treats each batch as a separate value and only counts the closes (`batchReleases`). It does not capture what that aliasing does to later reads.
- Reads and `next()` after `close()`. What the Arrow library does with released buffers and a closed reader is not part of this model. `Next` and the getters require an open result set.
- Native memory accounting in the shared allocator. Releases are ghost counters of closes, not byte counts.
- Exceptions thrown while closing the previous batch in next() (line 53) or in close() (lines 185-186). In next() such an exception leaves the reader advanced while `batch`, `loadedRows`, `cursor` and `batchCursor` keep their old values; in the model a loaded batch is always installed. `Close` always succeeds in the model.
- The text of exception messages. Errors carry their kind, the index and the field. The type names in a field are the model's own labels.
- getColumnCount counts the schema's fields. The model counts the batch's vectors, which a loaded root keeps in one-to-one correspondence.
- Arrow's bounds checking can be switched off. The model always reports a row outside a vector as `RowIndexOutOfRange`.
- parseData and toByteArray (lines 33-42). They copy the engine's buffer into an input stream, which the model takes as already decoded.
- ChdbJniUtil (the native library load and the native query call). The engine is outside the model, and the result buffer is its input.
- The label-based getters and the roughly 150 other ResultSet methods. Each of them throws "not implemented" unconditionally.
- `CursorModel.NoInt32Overflow`: the fields are unbounded integers. Java's 32-bit wrap-around for streams of 2^31 or more answers is not modelled. The lemma shows that below that size no value leaves the int range.
