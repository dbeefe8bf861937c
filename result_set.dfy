/**
 * ChdbResultSet: a forward-only cursor over the rows of an Arrow stream, one batch loaded at a
 * time, with getInt, getLong and getString by 1-based column index.
 */
module ResultSet {
  import opened Errors
  import opened Arrow
  import opened CursorModel
  import Text

  class ChdbResultSet {
    var cursor: int
    var loadedRows: int
    var reader: StreamReader
    var batch: Option<Batch>
    var batchCursor: int
    /** How many times a loaded batch has been closed. */
    ghost var batchReleases: nat
    /** How many times the reader has been closed. */
    ghost var readerReleases: nat

    function State(): Snapshot
      reads this
    {
      Snapshot(cursor, loadedRows, reader, batch, batchCursor)
    }

    ghost predicate IsOpen()
      reads this
    {
      readerReleases == 0
    }

    /** An open result set keeps next()'s invariant, and every batch it loaded except the current one was closed once. */
    ghost predicate Valid()
      reads this
    {
      && Inv(State())
      && IsOpen()
      && batchReleases + (if batch.Some? then 1 else 0) == reader.position
    }

    /** Binds the result set to the reader over the buffer the engine returned; nothing is read yet. */
    constructor (batches: seq<Batch>, end: StreamEnd)
      ensures Valid()
      ensures State() == Initial(StreamReader(batches, end, 0))
      ensures batchReleases == 0
    {
      cursor := -1;
      loadedRows := 0;
      reader := StreamReader(batches, end, 0);
      batch := None;
      batchCursor := 0;
      batchReleases := 0;
      readerReleases := 0;
    }

    /** next(): moves to the following row, loading the next batch when the loaded one is used up. */
    method Next() returns (r: Result<bool>)
      requires Valid()
      modifies this
      ensures Valid()
      ensures (State(), r) == Advance(old(State()))
      // rows remain in the loaded batch: step inside it, nothing is read from the stream
      ensures old(cursor < loadedRows - 1) ==>
        && r == Ok(true)
        && cursor == old(cursor) + 1 && batchCursor == old(batchCursor) + 1
        && loadedRows == old(loadedRows) && batch == old(batch) && reader == old(reader)
        && batchReleases == old(batchReleases)
      // the loaded batch is used up and the stream has another: close the old one, install the new one
      ensures old(cursor >= loadedRows - 1 && reader.position < |reader.batches|) ==>
        && r == Ok(true)
        && batch == Some(old(reader.batches[reader.position]))
        && loadedRows == old(loadedRows) + batch.value.rowCount
        && cursor == old(cursor) + 1 && batchCursor == 0
        && reader == old(reader).(position := old(reader.position) + 1)
        && batchReleases == old(batchReleases) + (if old(batch).Some? then 1 else 0)
      // the stream is exhausted: false (or the reader's failure), and nothing changes
      ensures old(cursor >= loadedRows - 1 && reader.position >= |reader.batches|) ==>
        && r == EndResult(reader)
        && State() == old(State()) && batchReleases == old(batchReleases)
    {
      AdvanceStep(State());
      if cursor < loadedRows - 1 {
        cursor := cursor + 1;
        batchCursor := batchCursor + 1;
        return Ok(true);
      }
      var (reader', loaded) := LoadNextBatch(reader);
      reader := reader';
      match loaded {
        case Loaded(b) =>
          if batch.Some? {
            batchReleases := batchReleases + 1;
          }
          batch := Some(b);
          loadedRows := loadedRows + b.rowCount;
          cursor := cursor + 1;
          batchCursor := 0;
          r := Ok(true);
        case Exhausted =>
          r := Ok(false);
        case ReadFailure =>
          r := Err(StreamFailure);
      }
    }

    /** close(): closes the loaded batch (if any) and the reader; the fields keep their values. */
    method Close()
      modifies this
      ensures State() == old(State())
      ensures batchReleases == old(batchReleases) + (if batch.Some? then 1 else 0)
      ensures readerReleases == old(readerReleases) + 1
      // closing an open result set leaves no loaded batch unreleased
      ensures old(Valid()) ==> batchReleases == reader.position
    {
      if batch.Some? {
        batchReleases := batchReleases + 1;
      }
      readerReleases := readerReleases + 1;
    }

    /** getColumnCount(): the number of fields of the loaded batch; dereferencing a null batch throws. */
    function ColumnCount(): Result<nat>
      reads this
    {
      if batch.None? then Err(NullBatch) else Ok(|batch.value.vectors|)
    }

    /** checkColumnIndex(idx): passes exactly for a 1-based index of a column of the loaded batch. */
    function CheckColumnIndex(idx: int): (r: Outcome)
      reads this
      ensures r.Pass? <==> batch.Some? && 1 <= idx <= |batch.value.vectors|
      ensures batch.None? ==> r == Fail(NullBatch)
      ensures batch.Some? && (idx < 1 || idx > |batch.value.vectors|) ==>
        r == Fail(ColumnIndexOutOfBound(idx, |batch.value.vectors|))
    {
      match ColumnCount()
      case Err(e) => Fail(e)
      case Ok(n) => if idx < 1 || idx > n then Fail(ColumnIndexOutOfBound(idx, n)) else Pass
    }

    /** getString(columnIndex): the text of the cell at the current row of column columnIndex, whatever its type. */
    function GetString(columnIndex: int): (r: Result<string>)
      reads this
      requires IsOpen()
      ensures CheckColumnIndex(columnIndex).Fail? ==> r == Err(CheckColumnIndex(columnIndex).error)
      ensures r.Ok? <==>
        && CheckColumnIndex(columnIndex).Pass?
        && 0 <= batchCursor < batch.value.vectors[columnIndex - 1].ValueCount()
        && batch.value.vectors[columnIndex - 1].IsSet(batchCursor)
      ensures r.Ok? ==>
        match batch.value.vectors[columnIndex - 1]
        case IntVector(_, cells) => r.value == Text.DecimalString(cells[batchCursor].value)
        case BigIntVector(_, cells) => r.value == Text.DecimalString(cells[batchCursor].value)
        case OtherVector(_, _, cells) => Some(r.value) == cells[batchCursor]
    {
      match CheckColumnIndex(columnIndex)
      case Fail(e) => Err(e)
      case Pass => batch.value.vectors[columnIndex - 1].GetObjectText(batchCursor)
    }

    /** getInt(columnIndex): the value at the current row of column columnIndex, which must be an int vector. */
    function GetInt(columnIndex: int): (r: Result<int>)
      reads this
      requires IsOpen()
      ensures CheckColumnIndex(columnIndex).Fail? ==> r == Err(CheckColumnIndex(columnIndex).error)
      ensures CheckColumnIndex(columnIndex).Pass? && !batch.value.vectors[columnIndex - 1].IntVector? ==>
        r == Err(NotInt(batch.value.vectors[columnIndex - 1].GetField()))
      ensures r.Ok? <==>
        && batch.Some? && 1 <= columnIndex <= |batch.value.vectors|
        && batch.value.vectors[columnIndex - 1].IntVector?
        && 0 <= batchCursor < |batch.value.vectors[columnIndex - 1].ints|
        && batch.value.vectors[columnIndex - 1].ints[batchCursor].Some?
      ensures r.Ok? ==> Some(r.value) == batch.value.vectors[columnIndex - 1].ints[batchCursor]
      ensures r.Ok? && batch.value.Valid() ==> IsInt32(r.value)
    {
      match CheckColumnIndex(columnIndex)
      case Fail(e) => Err(e)
      case Pass =>
        var vector := batch.value.vectors[columnIndex - 1];
        if vector.IntVector? then vector.Get(batchCursor) else Err(NotInt(vector.GetField()))
    }

    /**
     * getLong(columnIndex), as written: after the 1-based bounds check it looks the vector up
     * with columnIndex itself, i.e. the column to the right of the one asked for, and the last
     * column's index lies past the end of the vector list.
     */
    function GetLong(columnIndex: int): (r: Result<int>)
      reads this
      requires IsOpen()
      ensures CheckColumnIndex(columnIndex).Fail? ==> r == Err(CheckColumnIndex(columnIndex).error)
      ensures CheckColumnIndex(columnIndex).Pass? && columnIndex == |batch.value.vectors| ==>
        r == Err(VectorIndexOutOfRange(columnIndex))
      ensures CheckColumnIndex(columnIndex).Pass? && columnIndex < |batch.value.vectors|
              && !batch.value.vectors[columnIndex].BigIntVector? ==>
        r == Err(NotLong(batch.value.vectors[columnIndex].GetField()))
      ensures r.Ok? <==>
        && batch.Some? && 1 <= columnIndex < |batch.value.vectors|
        && batch.value.vectors[columnIndex].BigIntVector?
        && 0 <= batchCursor < |batch.value.vectors[columnIndex].longs|
        && batch.value.vectors[columnIndex].longs[batchCursor].Some?
      ensures r.Ok? ==> Some(r.value) == batch.value.vectors[columnIndex].longs[batchCursor]
    {
      match CheckColumnIndex(columnIndex)
      case Fail(e) => Err(e)
      case Pass =>
        if columnIndex >= |batch.value.vectors| then Err(VectorIndexOutOfRange(columnIndex))
        else
          var vector := batch.value.vectors[columnIndex];
          if vector.BigIntVector? then vector.Get(batchCursor) else Err(NotLong(vector.GetField()))
    }

    /** getLong(columnIndex) as evidently intended: the same 1-based convention as getInt and getString. */
    function GetLongIntended(columnIndex: int): (r: Result<int>)
      reads this
      requires IsOpen()
      ensures CheckColumnIndex(columnIndex).Fail? ==> r == Err(CheckColumnIndex(columnIndex).error)
      ensures CheckColumnIndex(columnIndex).Pass? && !batch.value.vectors[columnIndex - 1].BigIntVector? ==>
        r == Err(NotLong(batch.value.vectors[columnIndex - 1].GetField()))
      ensures r.Ok? <==>
        && batch.Some? && 1 <= columnIndex <= |batch.value.vectors|
        && batch.value.vectors[columnIndex - 1].BigIntVector?
        && 0 <= batchCursor < |batch.value.vectors[columnIndex - 1].longs|
        && batch.value.vectors[columnIndex - 1].longs[batchCursor].Some?
      ensures r.Ok? ==> Some(r.value) == batch.value.vectors[columnIndex - 1].longs[batchCursor]
      ensures r.Ok? && batch.value.Valid() ==> IsInt64(r.value)
    {
      match CheckColumnIndex(columnIndex)
      case Fail(e) => Err(e)
      case Pass =>
        var vector := batch.value.vectors[columnIndex - 1];
        if vector.BigIntVector? then vector.Get(batchCursor) else Err(NotLong(vector.GetField()))
    }
  }

  /** Where getInt succeeds, getString gives the decimal text of the same value. */
  lemma GetStringAgreesWithGetInt(rs: ChdbResultSet, columnIndex: int)
    requires rs.IsOpen() && rs.GetInt(columnIndex).Ok?
    ensures rs.GetString(columnIndex) == Ok(Text.DecimalString(rs.GetInt(columnIndex).value))
    ensures Text.ParseDecimal(rs.GetString(columnIndex).value) == rs.GetInt(columnIndex).value
  {
    Text.DecimalRoundTrip(rs.GetInt(columnIndex).value);
  }

  /** Where the intended getLong succeeds, getString gives the decimal text of the same value. */
  lemma GetStringAgreesWithGetLong(rs: ChdbResultSet, columnIndex: int)
    requires rs.IsOpen() && rs.GetLongIntended(columnIndex).Ok?
    ensures rs.GetString(columnIndex) == Ok(Text.DecimalString(rs.GetLongIntended(columnIndex).value))
    ensures Text.ParseDecimal(rs.GetString(columnIndex).value) == rs.GetLongIntended(columnIndex).value
  {
    Text.DecimalRoundTrip(rs.GetLongIntended(columnIndex).value);
  }

  /** getLong(c) as written answers what the intended getLong answers for column c + 1. */
  lemma GetLongReadsNextColumn(rs: ChdbResultSet, columnIndex: int)
    requires rs.IsOpen() && rs.batch.Some? && 1 <= columnIndex < |rs.batch.value.vectors|
    ensures rs.GetLong(columnIndex) == rs.GetLongIntended(columnIndex + 1)
  {
  }

  /**
   * A batch whose only column is a BIGINT holding 42 on the current row: getLong(1) passes the
   * bounds check and then fails on the vector lookup, where the intended getLong returns 42.
   */
  lemma GetLongCounterexample(rs: ChdbResultSet)
    requires rs.IsOpen() && rs.batchCursor == 0
    requires rs.batch == Some(Batch(1, [BigIntVector("number", [Some(42)])]))
    ensures rs.CheckColumnIndex(1) == Pass
    ensures rs.GetLong(1) == Err(VectorIndexOutOfRange(1))
    ensures rs.GetLongIntended(1) == Ok(42)
  {
  }

  /**
   * As written, next() reports a zero-row batch as a row; on that row no column has a value,
   * so every getter fails.
   */
  lemma EmptyBatchRowHasNoValues(rs: ChdbResultSet, columnIndex: int)
    requires rs.IsOpen() && rs.batch.Some? && rs.batch.value.Valid() && rs.batch.value.rowCount == 0
    ensures rs.GetInt(columnIndex).Err? && rs.GetLong(columnIndex).Err? && rs.GetString(columnIndex).Err?
  {
  }

  /**
   * The driving loop of a client (`while (rs.next())` reading getString(1) on every row, then
   * close): it sees one true answer per answer ahead, then the end of the stream; a failing
   * getString or next ends it with that error, and after close no loaded batch is left unreleased.
   */
  method ReadAll(rs: ChdbResultSet) returns (r: Result<nat>)
    requires rs.Valid()
    modifies rs
    ensures r.Ok? ==> rs.reader.end == EndOfStream
    ensures r.Ok? ==> r.value == old(RowsAhead(rs.State()))
    ensures rs.reader.batches == old(rs.reader.batches)
    ensures r.Ok? ==> rs.reader.position == |rs.reader.batches| && rs.batchReleases == |rs.reader.batches|
  {
    ghost var ahead0 := RowsAhead(rs.State());
    AdvanceStep(rs.State());
    var count: nat := 0;
    while true
      invariant rs.Valid()
      invariant rs.reader.batches == old(rs.reader.batches) && rs.reader.end == old(rs.reader.end)
      invariant RowsAhead(rs.State()) >= 0
      invariant count + RowsAhead(rs.State()) == ahead0
      decreases RowsAhead(rs.State())
    {
      AdvanceStep(rs.State());
      var more := rs.Next();
      if more != Ok(true) {
        if more.Err? {
          return Err(more.error);
        }
        break;
      }
      var text := rs.GetString(1);
      if text.Err? {
        return Err(text.error);
      }
      count := count + 1;
    }
    AtEndAllLoaded(rs.State());
    rs.Close();
    return Ok(count);
  }

  /** When no answer is ahead, every batch of the stream has been loaded. */
  lemma AtEndAllLoaded(s: Snapshot)
    requires Inv(s) && RowsAhead(s) == 0
    ensures s.reader.position == |s.reader.batches|
  {
    ReportedPrefixMonotone(s.reader.batches, s.reader.position);
  }
}
