/** The sequential core of `main`: cut the buffer into `n` chunks, scan every
    chunk, then join the chunks in order, stopping at the first error and
    otherwise merging every chunk's table into the global one. */
module Pipeline {
  import opened Outcomes
  import opened Bytes
  import opened ChunkAggregator
  import opened RangePlanner
  import opened AggregateMerger

  /** What each thread returns for its chunk, the chunks lying between
      consecutive cuts. */
  function Pieces(bytes: seq<Byte>, cuts: seq<nat>): (r: seq<Result<Table, Error>>)
    requires |cuts| > 0 && forall k :: 0 <= k < |cuts| ==> cuts[k] <= |bytes|
    ensures |r| == |cuts| - 1
  {
    seq(|cuts| - 1, k requires 0 <= k < |cuts| - 1 => ChunkTable(bytes, cuts[k], cuts[k + 1]))
  }

  /** Lines 29-34: the results joined in order; the first error is returned,
      otherwise each table is merged into the global one. */
  function Combined(rs: seq<Result<Table, Error>>): (r: Result<Table, Error>)
    ensures r.Ok? ==> forall i :: 0 <= i < |rs| ==> rs[i].Ok?
    ensures r.Err? ==> exists i :: 0 <= i < |rs| && rs[i] == r
  {
    if |rs| == 0 then Ok(map[])
    else
      match Combined(rs[..|rs| - 1])
      case Err(e) => Err(e)
      case Ok(stats) =>
        match rs[|rs| - 1]
        case Err(e) => Err(e)
        case Ok(chunk) => Ok(MergeTables(stats, chunk))
  }

  /** The tables of results that all succeeded. */
  function Tables(rs: seq<Result<Table, Error>>): (r: seq<Table>)
    requires forall i :: 0 <= i < |rs| ==> rs[i].Ok?
    ensures |r| == |rs| && forall i :: 0 <= i < |rs| ==> rs[i] == Ok(r[i])
  {
    seq(|rs|, i requires 0 <= i < |rs| && rs[i].Ok? => rs[i].value)
  }

  /** The join succeeds exactly when every chunk succeeds, and then it is the
      fold of all the tables. */
  lemma {:induction false} CombinedOk(rs: seq<Result<Table, Error>>)
    ensures Combined(rs).Ok? <==> forall i :: 0 <= i < |rs| ==> rs[i].Ok?
    ensures Combined(rs).Ok? ==> Combined(rs).value == FoldTables(Tables(rs))
  {
    if |rs| > 0 {
      var prefix := rs[..|rs| - 1];
      CombinedOk(prefix);
      assert forall i :: 0 <= i < |prefix| ==> rs[i] == prefix[i];
      if Combined(rs).Ok? {
        assert Tables(rs)[..|rs| - 1] == Tables(prefix);
      }
    }
  }

  /** A failed join carries the error of the first chunk that fails. */
  lemma {:induction false} CombinedFirstError(rs: seq<Result<Table, Error>>)
    requires Combined(rs).Err?
    ensures exists i :: 0 <= i < |rs| && rs[i] == Combined(rs) && forall j :: 0 <= j < i ==> rs[j].Ok?
  {
    var prefix := rs[..|rs| - 1];
    if Combined(prefix).Err? {
      CombinedFirstError(prefix);
      var i :| 0 <= i < |prefix| && prefix[i] == Combined(prefix) && forall j :: 0 <= j < i ==> prefix[j].Ok?;
      assert rs[i] == prefix[i];
    } else {
      CombinedOk(prefix);
      assert forall j :: 0 <= j < |prefix| ==> rs[j] == prefix[j];
      assert rs[|rs| - 1] == Combined(rs);
    }
  }

  /** Once the join has failed, the later results are never looked at. */
  lemma {:induction false} CombinedStops(rs: seq<Result<Table, Error>>, k: nat)
    requires k <= |rs| && Combined(rs[..k]).Err?
    ensures Combined(rs) == Combined(rs[..k])
    decreases |rs| - k
  {
    if k < |rs| {
      assert rs[..k + 1][..k] == rs[..k];
      CombinedStops(rs, k + 1);
    } else {
      assert rs[..k] == rs;
    }
  }

  /** The headline property: when every line of the buffer holds a ';', the
      tables of the chunks between any line starts, merged in order, are the
      table of the whole stretch scanned in one go, and an error in one is the
      error of the other. */
  lemma {:induction false} PiecesCombine(bytes: seq<Byte>, cuts: seq<nat>)
    requires |cuts| > 0 && LinesHaveSemicolon(bytes)
    requires forall k :: 0 <= k < |cuts| ==> LineStart(bytes, cuts[k])
    requires forall j, k :: 0 <= j <= k < |cuts| ==> cuts[j] <= cuts[k] <= |bytes|
    ensures Combined(Pieces(bytes, cuts)) == ChunkTable(bytes, cuts[0], cuts[|cuts| - 1])
  {
    var m := |cuts| - 1;
    var rs := Pieces(bytes, cuts);
    if m > 0 {
      var init := cuts[..m];
      PiecesCombine(bytes, init);
      assert rs[..m - 1] == Pieces(bytes, init);
      var first, c, e := cuts[0], cuts[m - 1], cuts[m];
      RecordsSplit(bytes, e, first, c);
      var before, after := RecordsFrom(bytes, c, first), RecordsFrom(bytes, e, c);
      if before.Ok? && after.Ok? {
        RecordsWellFormed(bytes, c, first);
        RecordsWellFormed(bytes, e, c);
        WellFormedInRange(before.value);
        WellFormedInRange(after.value);
        TableOfAppend(before.value, after.value);
      }
    }
  }

  /** Lines 21-26: one thread per range, each scanning its chunk. */
  method ScanChunks(bytes: seq<Byte>, ranges: seq<Range>) returns (results: seq<Result<Table, Error>>)
    requires forall k :: 0 <= k < |ranges| ==> ranges[k].start <= ranges[k].end <= |bytes|
    ensures |results| == |ranges|
    ensures forall k :: 0 <= k < |ranges| ==>
              results[k] == ChunkTable(bytes, ranges[k].start, ranges[k].end)
  {
    results := [];
    for k := 0 to |ranges|
      invariant |results| == k
      invariant forall j :: 0 <= j < k ==> results[j] == ChunkTable(bytes, ranges[j].start, ranges[j].end)
    {
      var chunk := ChunkStats(bytes, ranges[k].start, ranges[k].end);
      results := results + [chunk];
    }
  }

  /** Lines 28-34: the threads joined in order; the first error is returned,
      and otherwise every chunk's table is merged into the global one. */
  method Join(results: seq<Result<Table, Error>>) returns (r: Result<Table, Error>)
    ensures r == Combined(results)
  {
    var stats: Table := map[];
    for k := 0 to |results|
      invariant Combined(results[..k]) == Ok(stats)
    {
      assert results[..k + 1][..k] == results[..k];
      match results[k]
      case Err(e) =>
        CombinedStops(results, k + 1);
        return Err(e);
      case Ok(chunk) =>
        stats := MergeInto(stats, chunk);
    }
    assert results[..|results|] == results;
    return Ok(stats);
  }

  /** The chunks `chunks` returns, merged in order, are the whole buffer
      scanned as one chunk, whenever every line of the buffer holds a ';'. */
  lemma ChunksCombine(bytes: seq<Byte>, n: nat)
    requires n > 0 && LinesHaveSemicolon(bytes)
    ensures Combined(Pieces(bytes, Cuts(bytes, n))) == ChunkTable(bytes, 0, |bytes|)
  {
    CutsOrdered(bytes, n);
    PiecesCombine(bytes, Cuts(bytes, n));
  }

  /** The threads' results are the pieces between consecutive cuts. */
  lemma ScannedPieces(bytes: seq<Byte>, n: nat, results: seq<Result<Table, Error>>)
    requires n > 0 && |results| == n
    requires forall k :: 0 <= k < n ==>
               var range := Windows(Cuts(bytes, n))[k];
               range.end <= |bytes| && results[k] == ChunkTable(bytes, range.start, range.end)
    ensures results == Pieces(bytes, Cuts(bytes, n))
  {
  }

  /** `main` after the file is mapped and the thread count is known: the chunks'
      results joined in thread order. When every line holds a ';', this is the
      table of scanning the whole buffer in one chunk. */
  method Run(bytes: seq<Byte>, n: nat) returns (r: Result<Table, Error>)
    requires n > 0
    ensures r == Combined(Pieces(bytes, Cuts(bytes, n)))
    ensures LinesHaveSemicolon(bytes) ==> r == ChunkTable(bytes, 0, |bytes|)
  {
    var ranges := Chunks(bytes, n);
    ChunksPartition(bytes, n);
    var results := ScanChunks(bytes, ranges);
    ScannedPieces(bytes, n, results);
    r := Join(results);
    if LinesHaveSemicolon(bytes) {
      ChunksCombine(bytes, n);
    }
  }
}
