/**
 * ChdbResultSet.next() as a function on a snapshot of the result set's fields, the invariant
 * it keeps, and how many times it answers true over a stream of batches.
 */
module CursorModel {
  import opened Errors
  import opened Arrow

  /** The fields of a result set: the global row index, the rows loaded so far, the reader,
      the loaded batch (null before the first load) and the row offset inside that batch. */
  datatype Snapshot = Snapshot(cursor: int, loadedRows: int, reader: StreamReader,
                               batch: Option<Batch>, batchCursor: int)

  /** A freshly constructed result set: before the first row, nothing loaded. */
  function Initial(reader: StreamReader): Snapshot {
    Snapshot(-1, 0, reader, None, 0)
  }

  /** next(), as written: step inside the loaded batch while rows remain, else load the next batch. */
  function Advance(s: Snapshot): (Snapshot, Result<bool>) {
    if s.cursor < s.loadedRows - 1 then
      (s.(cursor := s.cursor + 1, batchCursor := s.batchCursor + 1), Ok(true))
    else
      var (reader', loaded) := LoadNextBatch(s.reader);
      match loaded
      case Loaded(b) => (Snapshot(s.cursor + 1, s.loadedRows + b.rowCount, reader', Some(b), 0), Ok(true))
      case Exhausted => (s.(reader := reader'), Ok(false))
      case ReadFailure => (s.(reader := reader'), Err(StreamFailure))
  }

  /** What next() answers once every batch has been consumed. */
  function EndResult(r: StreamReader): Result<bool> {
    if r.end == Corrupt then Err(StreamFailure) else Ok(false)
  }

  function Max(a: int, b: int): int { if a < b then b else a }

  /**
   * How many times next() answers true while it consumes the batches bs from a fresh result
   * set.  Each batch adds at least one answer, even a batch of zero rows.
   */
  function RowsReported(bs: seq<Batch>): (n: nat)
    ensures n >= Total(bs) && n >= |bs|
  {
    if bs == [] then 0
    else
      var init := bs[..|bs| - 1];
      Max(RowsReported(init) + 1, Total(init) + bs[|bs| - 1].rowCount)
  }

  /**
   * The invariant next() keeps.  After p batches were loaded, `loadedRows` is their row total
   * and `batch` is the last of them; `cursor` has advanced by one per true answer, and
   * `batchCursor` counts the steps taken inside the loaded batch.
   */
  predicate Inv(s: Snapshot) {
    var bs, p := s.reader.batches, s.reader.position;
    && p <= |bs|
    && s.loadedRows == Total(bs[..p])
    && (p == 0 ==> s.batch == None && s.cursor == -1 && s.batchCursor == 0)
    && (p > 0 ==>
          && s.batch == Some(bs[p - 1])
          && 0 <= s.batchCursor
          && s.cursor == RowsReported(bs[..p - 1]) + s.batchCursor
          && s.cursor < RowsReported(bs[..p]))
  }

  /** The number of true answers next() still gives from s. */
  function RowsAhead(s: Snapshot): int {
    RowsReported(s.reader.batches) - 1 - s.cursor
  }

  lemma ReportedPrefixStep(bs: seq<Batch>, p: nat)
    requires p < |bs|
    ensures RowsReported(bs[..p + 1]) == Max(RowsReported(bs[..p]) + 1, Total(bs[..p + 1]))
  {
    assert bs[..p + 1][..p] == bs[..p];
    TotalPrefixStep(bs, p);
  }

  /** Every further batch adds at least one answer. */
  lemma {:induction false} ReportedPrefixMonotone(bs: seq<Batch>, p: nat)
    requires p <= |bs|
    ensures RowsReported(bs[..p]) + (|bs| - p) <= RowsReported(bs)
    decreases |bs| - p
  {
    if p == |bs| {
      assert bs[..p] == bs;
    } else {
      ReportedPrefixStep(bs, p);
      ReportedPrefixMonotone(bs, p + 1);
    }
  }

  /** With no zero-row batch, next() answers true once per row. */
  lemma {:induction false} ReportedOfNonEmpty(bs: seq<Batch>)
    requires AllNonEmpty(bs)
    ensures RowsReported(bs) == Total(bs)
    decreases |bs|
  {
    if bs != [] {
      var init := bs[..|bs| - 1];
      assert AllNonEmpty(init) by {
        forall i | 0 <= i < |init| ensures init[i].rowCount > 0 {
          assert init[i] == bs[i];
        }
      }
      ReportedOfNonEmpty(init);
    }
  }

  lemma ReportedOfNonEmptyPrefix(bs: seq<Batch>, p: nat)
    requires AllNonEmpty(bs) && p <= |bs|
    ensures RowsReported(bs[..p]) == Total(bs[..p])
  {
    assert AllNonEmpty(bs[..p]) by {
      forall i | 0 <= i < p ensures bs[..p][i].rowCount > 0 {
        assert bs[..p][i] == bs[i];
      }
    }
    ReportedOfNonEmpty(bs[..p]);
  }

  /** Before a load, `cursor` stands on the last answer the loaded batches give. */
  lemma CursorAtLoad(s: Snapshot)
    requires Inv(s) && s.cursor >= s.loadedRows - 1
    ensures s.cursor == RowsReported(s.reader.batches[..s.reader.position]) - 1
  {
    var bs, p := s.reader.batches, s.reader.position;
    if p == 0 {
      assert bs[..p] == [];
    } else {
      ReportedPrefixStep(bs, p - 1);
      assert bs[..p - 1 + 1] == bs[..p];
    }
  }

  lemma AdvanceFastPath(s: Snapshot)
    requires Inv(s) && s.cursor < s.loadedRows - 1
    ensures var t := Advance(s).0;
      Inv(t) && RowsAhead(s) > 0 && RowsAhead(t) == RowsAhead(s) - 1
  {
    ReportedPrefixMonotone(s.reader.batches, s.reader.position);
  }

  lemma AdvanceLoad(s: Snapshot)
    requires Inv(s) && s.cursor >= s.loadedRows - 1 && s.reader.position < |s.reader.batches|
    ensures var t := Advance(s).0;
      Inv(t) && RowsAhead(s) > 0 && RowsAhead(t) == RowsAhead(s) - 1
  {
    var bs, p := s.reader.batches, s.reader.position;
    CursorAtLoad(s);
    TotalPrefixStep(bs, p);
    ReportedPrefixStep(bs, p);
    ReportedPrefixMonotone(bs, p + 1);
    assert bs[..p + 1][..p] == bs[..p];
  }

  lemma AdvanceAtEnd(s: Snapshot)
    requires Inv(s) && s.cursor >= s.loadedRows - 1 && s.reader.position == |s.reader.batches|
    ensures RowsAhead(s) == 0
  {
    CursorAtLoad(s);
    assert s.reader.batches[..s.reader.position] == s.reader.batches;
  }

  /**
   * One call of next(): it keeps the invariant and the stream; a true answer advances
   * `cursor` by exactly one and uses up one of the answers ahead; when none is ahead
   * it answers end of stream and changes nothing.
   */
  lemma AdvanceStep(s: Snapshot)
    requires Inv(s)
    ensures RowsAhead(s) >= 0
    ensures var (t, r) := Advance(s);
      && Inv(t)
      && t.reader.batches == s.reader.batches && t.reader.end == s.reader.end
      && (RowsAhead(s) > 0 ==> r == Ok(true) && t.cursor == s.cursor + 1 && RowsAhead(t) == RowsAhead(s) - 1)
      && (RowsAhead(s) == 0 ==> r == EndResult(s.reader) && t == s)
  {
    if s.cursor < s.loadedRows - 1 {
      AdvanceFastPath(s);
    } else if s.reader.position < |s.reader.batches| {
      AdvanceLoad(s);
    } else {
      AdvanceAtEnd(s);
    }
  }

  /** Calling next() k times. */
  function Iterate(s: Snapshot, k: nat): Snapshot
    decreases k
  {
    if k == 0 then s else Iterate(Advance(s).0, k - 1)
  }

  /**
   * From any reachable state, next() answers true exactly RowsAhead(s) more times and then
   * reports the end of the stream (false, or the reader's failure).
   */
  lemma {:induction false} AnswersUntilEnd(s: Snapshot)
    requires Inv(s)
    ensures RowsAhead(s) >= 0
    ensures forall k :: 0 <= k < RowsAhead(s) ==> Advance(Iterate(s, k)).1 == Ok(true)
    ensures Advance(Iterate(s, RowsAhead(s))).1 == EndResult(s.reader)
    decreases RowsAhead(s)
  {
    AdvanceStep(s);
    if RowsAhead(s) > 0 {
      var t := Advance(s).0;
      AnswersUntilEnd(t);
      forall k | 0 <= k < RowsAhead(s) ensures Advance(Iterate(s, k)).1 == Ok(true) {
        if k > 0 {
          assert Iterate(s, k) == Iterate(t, k - 1);
        }
      }
      assert Iterate(s, RowsAhead(s)) == Iterate(t, RowsAhead(t));
      assert EndResult(t.reader) == EndResult(s.reader);
    }
  }

  /**
   * Counting: over a stream of batches, a fresh result set answers true RowsReported times and
   * then reports the end; when no batch is empty that is once per row of the stream.
   */
  lemma CountFromStart(r: StreamReader)
    requires r.position == 0
    ensures RowsAhead(Initial(r)) == RowsReported(r.batches)
    ensures AllNonEmpty(r.batches) ==> RowsReported(r.batches) == Total(r.batches)
    ensures forall k :: 0 <= k < RowsReported(r.batches) ==> Advance(Iterate(Initial(r), k)).1 == Ok(true)
    ensures Advance(Iterate(Initial(r), RowsReported(r.batches))).1 == EndResult(r)
  {
    assert r.batches[..0] == [];
    AnswersUntilEnd(Initial(r));
    if AllNonEmpty(r.batches) {
      ReportedOfNonEmpty(r.batches);
    }
  }

  /**
   * With no zero-row batch, the loaded batch holds the current row: `batchCursor` is a row of
   * it, and `cursor - batchCursor` is the number of rows in the batches loaded before it.
   */
  lemma CurrentRowInBatch(s: Snapshot)
    requires Inv(s) && AllNonEmpty(s.reader.batches) && s.batch.Some?
    ensures 0 <= s.batchCursor < s.batch.value.rowCount
    ensures s.cursor - s.batchCursor == s.loadedRows - s.batch.value.rowCount
  {
    var bs, p := s.reader.batches, s.reader.position;
    ReportedOfNonEmptyPrefix(bs, p - 1);
    ReportedOfNonEmptyPrefix(bs, p);
    TotalPrefixStep(bs, p - 1);
    assert bs[..p - 1 + 1] == bs[..p];
  }

  /**
   * Java's int fields never wrap: while the stream gives fewer than 2^31 answers, `cursor`,
   * `loadedRows` and `batchCursor` stay inside the 32-bit range, so unbounded arithmetic agrees
   * with the source's.
   */
  lemma NoInt32Overflow(s: Snapshot)
    requires Inv(s) && RowsReported(s.reader.batches) < Int32Bound
    ensures IsInt32(s.cursor) && IsInt32(s.loadedRows) && IsInt32(s.batchCursor)
  {
    var bs, p := s.reader.batches, s.reader.position;
    ReportedPrefixMonotone(bs, p);
    if p > 0 {
      ReportedPrefixMonotone(bs, p - 1);
    }
  }

  // ----- The zero-row batch, as written and as evidently intended -----

  /**
   * As written, a batch of zero rows is reported as a row, and the skew it leaves in `cursor`
   * makes next() stop early in the following batch: over a stream of a zero-row batch and a
   * three-row batch, the third row of the second batch never becomes current.
   */
  lemma EmptyBatchCounterexample()
    ensures var empty, three := Batch(0, []), Batch(3, []);
      var s0 := Initial(StreamReader([empty, three], EndOfStream, 0));
      && Advance(s0) == (Snapshot(0, 0, StreamReader([empty, three], EndOfStream, 1), Some(empty), 0), Ok(true))
      && Iterate(s0, 3) == Snapshot(2, 3, StreamReader([empty, three], EndOfStream, 2), Some(three), 1)
      && Advance(Iterate(s0, 3)).1 == Ok(false)
  {
    var empty, three := Batch(0, []), Batch(3, []);
    var s0 := Initial(StreamReader([empty, three], EndOfStream, 0));
    var s1 := Advance(s0).0;
    var s2 := Advance(s1).0;
    var s3 := Advance(s2).0;
    assert s1 == Snapshot(0, 0, StreamReader([empty, three], EndOfStream, 1), Some(empty), 0);
    assert s2 == Snapshot(1, 3, StreamReader([empty, three], EndOfStream, 2), Some(three), 0);
    assert s3 == Snapshot(2, 3, StreamReader([empty, three], EndOfStream, 2), Some(three), 1);
    assert Iterate(s0, 3) == Iterate(s1, 2) == Iterate(s2, 1) == Iterate(s3, 0);
  }

  /** next() as evidently intended: a loaded batch of zero rows is passed over, not reported. */
  function AdvanceSkippingEmpty(s: Snapshot): (Snapshot, Result<bool>)
    decreases |s.reader.batches| - s.reader.position
  {
    if s.cursor < s.loadedRows - 1 then
      (s.(cursor := s.cursor + 1, batchCursor := s.batchCursor + 1), Ok(true))
    else
      var (reader', loaded) := LoadNextBatch(s.reader);
      match loaded
      case Loaded(b) =>
        if b.rowCount == 0 then AdvanceSkippingEmpty(s.(reader := reader', batch := Some(b)))
        else (Snapshot(s.cursor + 1, s.loadedRows + b.rowCount, reader', Some(b), 0), Ok(true))
      case Exhausted => (s.(reader := reader'), Ok(false))
      case ReadFailure => (s.(reader := reader'), Err(StreamFailure))
  }

  /** The invariant of the intended next(): while rows of the loaded batch remain, the offset is one of its rows. */
  predicate SkipInv(s: Snapshot) {
    var bs, p := s.reader.batches, s.reader.position;
    && p <= |bs|
    && s.loadedRows == Total(bs[..p])
    && -1 <= s.cursor <= s.loadedRows - 1
    && (s.cursor < s.loadedRows - 1 ==>
          && s.batch.Some?
          && 0 <= s.batchCursor < s.batch.value.rowCount
          && s.cursor - s.batchCursor == s.loadedRows - s.batch.value.rowCount)
  }

  /**
   * One call of the intended next(): every true answer is one row of the stream and lands on a
   * row of the loaded batch; when no row is ahead it reports the end of the stream.
   */
  lemma {:induction false} SkippingStep(s: Snapshot)
    requires SkipInv(s)
    ensures Total(s.reader.batches) - 1 - s.cursor >= 0
    ensures var (t, r) := AdvanceSkippingEmpty(s);
      var ahead := Total(s.reader.batches) - 1 - s.cursor;
      && SkipInv(t)
      && t.reader.batches == s.reader.batches && t.reader.end == s.reader.end
      && (ahead > 0 ==>
            && r == Ok(true) && t.cursor == s.cursor + 1
            && t.batch.Some? && 0 <= t.batchCursor < t.batch.value.rowCount
            && t.cursor - t.batchCursor == t.loadedRows - t.batch.value.rowCount)
      && (ahead == 0 ==> r == EndResult(s.reader))
    decreases |s.reader.batches| - s.reader.position
  {
    var bs, p := s.reader.batches, s.reader.position;
    TotalPrefixMonotone(bs, p);
    if s.cursor >= s.loadedRows - 1 && p < |bs| {
      TotalPrefixStep(bs, p);
      TotalPrefixMonotone(bs, p + 1);
      if bs[p].rowCount == 0 {
        var u := s.(reader := s.reader.(position := p + 1), batch := Some(bs[p]));
        SkippingStep(u);
      }
    }
    if p == |bs| {
      assert bs[..p] == bs;
    }
  }

  function IterateSkipping(s: Snapshot, k: nat): Snapshot
    decreases k
  {
    if k == 0 then s else IterateSkipping(AdvanceSkippingEmpty(s).0, k - 1)
  }

  /** The intended next() answers true exactly once per row of the stream, whatever the batch sizes. */
  lemma {:induction false} SkippingCountsRows(s: Snapshot)
    requires SkipInv(s)
    ensures forall k :: 0 <= k < Total(s.reader.batches) - 1 - s.cursor ==>
      AdvanceSkippingEmpty(IterateSkipping(s, k)).1 == Ok(true)
    ensures Total(s.reader.batches) - 1 - s.cursor >= 0
    ensures AdvanceSkippingEmpty(IterateSkipping(s, Total(s.reader.batches) - 1 - s.cursor)).1 == EndResult(s.reader)
    decreases Total(s.reader.batches) - 1 - s.cursor
  {
    SkippingStep(s);
    var ahead := Total(s.reader.batches) - 1 - s.cursor;
    if ahead > 0 {
      var t := AdvanceSkippingEmpty(s).0;
      SkippingCountsRows(t);
      forall k | 0 <= k < ahead ensures AdvanceSkippingEmpty(IterateSkipping(s, k)).1 == Ok(true) {
        if k > 0 {
          assert IterateSkipping(s, k) == IterateSkipping(t, k - 1);
        }
      }
      assert IterateSkipping(s, ahead) == IterateSkipping(t, ahead - 1);
      assert EndResult(t.reader) == EndResult(s.reader);
    }
  }

  /** From a fresh result set the intended next() answers true Total(bs) times, then reports the end. */
  lemma SkippingCountFromStart(r: StreamReader)
    requires r.position == 0
    ensures forall k :: 0 <= k < Total(r.batches) ==> AdvanceSkippingEmpty(IterateSkipping(Initial(r), k)).1 == Ok(true)
    ensures AdvanceSkippingEmpty(IterateSkipping(Initial(r), Total(r.batches))).1 == EndResult(r)
  {
    assert r.batches[..0] == [];
    SkippingCountsRows(Initial(r));
  }
}
