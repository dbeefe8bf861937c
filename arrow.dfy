/**
 * The part of the Arrow library the result set consumes, as values: a batch of typed
 * column vectors, and a stream reader that hands out the batches of a stream one by one.
 * The decoding of the Arrow stream format itself is not part of this model.
 */
module Arrow {
  import opened Errors
  import Text

  const Int32Bound: int := 0x8000_0000
  const Int64Bound: int := 0x8000_0000_0000_0000

  predicate IsInt32(x: int) { -Int32Bound <= x < Int32Bound }
  predicate IsInt64(x: int) { -Int64Bound <= x < Int64Bound }

  /** A column vector of a batch; a `None` cell is an Arrow null. */
  datatype FieldVector =
    | IntVector(name: string, ints: seq<Option<int>>)
    | BigIntVector(name: string, longs: seq<Option<int>>)
    | OtherVector(name: string, typeName: string, texts: seq<Option<string>>)
  {
    function GetField(): Field {
      match this
      case IntVector(n, _) => Field(n, "Int(32, true)")
      case BigIntVector(n, _) => Field(n, "Int(64, true)")
      case OtherVector(n, t, _) => Field(n, t)
    }

    function ValueCount(): nat {
      match this
      case IntVector(_, v) => |v|
      case BigIntVector(_, v) => |v|
      case OtherVector(_, _, v) => |v|
    }

    /** Whether the cell at `row` holds a value (Arrow's isSet). */
    predicate IsSet(row: nat)
      requires row < ValueCount()
    {
      match this
      case IntVector(_, v) => v[row].Some?
      case BigIntVector(_, v) => v[row].Some?
      case OtherVector(_, _, v) => v[row].Some?
    }

    /** Each integer cell fits the Java type of its vector. */
    predicate Valid() {
      match this
      case IntVector(_, v) => forall i :: 0 <= i < |v| && v[i].Some? ==> IsInt32(v[i].value)
      case BigIntVector(_, v) => forall i :: 0 <= i < |v| && v[i].Some? ==> IsInt64(v[i].value)
      case OtherVector(_, _, _) => true
    }

    /** IntVector.get / BigIntVector.get: the integer at `row`, failing on a null or a row out of range. */
    function Get(row: int): (r: Result<int>)
      requires IntVector? || BigIntVector?
    {
      var cells := if IntVector? then ints else longs;
      if row < 0 || row >= |cells| then Err(RowIndexOutOfRange(row))
      else if cells[row].None? then Err(NullValue(row))
      else Ok(cells[row].value)
    }

    /** getObject(row).toString(): the text of the cell at `row`; a null cell makes toString throw. */
    function GetObjectText(row: int): (r: Result<string>) {
      match this
      case OtherVector(_, _, v) =>
        if row < 0 || row >= |v| then Err(RowIndexOutOfRange(row))
        else if v[row].None? then Err(NullValue(row))
        else Ok(v[row].value)
      case _ =>
        match Get(row)
        case Ok(x) => Ok(Text.DecimalString(x))
        case Err(e) => Err(e)
    }
  }

  /** A loaded record batch: its row count and its vectors, one per schema field. */
  datatype Batch = Batch(rowCount: nat, vectors: seq<FieldVector>) {
    predicate Valid() {
      && rowCount < Int32Bound
      && forall i :: 0 <= i < |vectors| ==> vectors[i].ValueCount() == rowCount && vectors[i].Valid()
    }
  }

  /** How the stream continues after its last batch: a clean end, or bytes the reader cannot decode. */
  datatype StreamEnd = EndOfStream | Corrupt

  /** An Arrow stream reader over a fully materialised buffer; `position` batches have been handed out. */
  datatype StreamReader = StreamReader(batches: seq<Batch>, end: StreamEnd, position: nat)

  datatype LoadOutcome = Loaded(batch: Batch) | Exhausted | ReadFailure

  /** loadNextBatch followed by getVectorSchemaRoot: the next batch of the stream, if any. */
  function LoadNextBatch(r: StreamReader): (res: (StreamReader, LoadOutcome))
    ensures res.1.Loaded? <==> r.position < |r.batches|
    ensures res.1.Loaded? ==> res.0 == r.(position := r.position + 1) && res.1.batch == r.batches[r.position]
    ensures !res.1.Loaded? ==> res.0 == r && (res.1.ReadFailure? <==> r.end == Corrupt)
  {
    if r.position < |r.batches| then (r.(position := r.position + 1), Loaded(r.batches[r.position]))
    else if r.end == Corrupt then (r, ReadFailure)
    else (r, Exhausted)
  }

  function Min(a: int, b: int): int { if a < b then a else b }

  /** k successive calls of loadNextBatch: the reader after them and the batches they handed out, in order. */
  function LoadRepeatedly(r: StreamReader, k: nat): (StreamReader, seq<Batch>)
    decreases k
  {
    if k == 0 then (r, [])
    else
      var (r', loaded) := LoadNextBatch(r);
      var (r'', rest) := LoadRepeatedly(r', k - 1);
      (r'', if loaded.Loaded? then [loaded.batch] + rest else rest)
  }

  /**
   * The reader hands out the stream's batches exactly once each and in stream order: k loads
   * from position p give batches[p..min(p + k, n)].  Once every batch is out, further loads
   * leave the reader as it is and answer end of stream, or a failure for an undecodable stream.
   */
  lemma {:induction false} LoadsInStreamOrder(r: StreamReader, k: nat)
    requires r.position <= |r.batches|
    ensures var m := Min(r.position + k, |r.batches|);
      LoadRepeatedly(r, k) == (r.(position := m), r.batches[r.position..m])
    ensures r.position + k >= |r.batches| ==>
      LoadNextBatch(LoadRepeatedly(r, k).0).1 == (if r.end == Corrupt then ReadFailure else Exhausted)
    decreases k
  {
    if k > 0 && r.position < |r.batches| {
      var r' := r.(position := r.position + 1);
      LoadsInStreamOrder(r', k - 1);
      var m := Min(r.position + k, |r.batches|);
      assert r.batches[r.position..m] == [r.batches[r.position]] + r.batches[r.position + 1..m];
    } else if k > 0 {
      LoadsInStreamOrder(r, k - 1);
    } else {
      assert r.(position := r.position) == r && r.batches[r.position..r.position] == [];
    }
  }

  /** The number of rows in the batches bs. */
  function Total(bs: seq<Batch>): nat {
    if bs == [] then 0 else Total(bs[..|bs| - 1]) + bs[|bs| - 1].rowCount
  }

  predicate AllNonEmpty(bs: seq<Batch>) {
    forall i :: 0 <= i < |bs| ==> bs[i].rowCount > 0
  }

  lemma TotalPrefixStep(bs: seq<Batch>, p: nat)
    requires p < |bs|
    ensures Total(bs[..p + 1]) == Total(bs[..p]) + bs[p].rowCount
  {
    assert bs[..p + 1][..p] == bs[..p];
  }

  /** Loading more batches never decreases the row total. */
  lemma {:induction false} TotalPrefixMonotone(bs: seq<Batch>, p: nat)
    requires p <= |bs|
    ensures Total(bs[..p]) <= Total(bs)
    decreases |bs| - p
  {
    if p == |bs| {
      assert bs[..p] == bs;
    } else {
      TotalPrefixStep(bs, p);
      TotalPrefixMonotone(bs, p + 1);
    }
  }
}
