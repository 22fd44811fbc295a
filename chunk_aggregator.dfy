/** `chunk_stats`: scan one chunk of `name;value\n` records into a table of
    per-name statistics.

    A chunk is the window `[start, end)` of the one buffer every thread shares,
    as the source's threads all slice the same mapped file; an index into the
    chunk is written here as an index into the buffer. */
module ChunkAggregator {
  import opened Outcomes
  import opened Bytes
  import opened FixedPoint
  import opened Statistics

  /** Why a chunk is rejected. */
  datatype Error =
    | MissingSemicolon  // "expected semicolon"
    | BadValue          // "failed to parse special-case f32"
    | EmptyValue        // `parse_f32` indexes an empty value slice and panics

  type Table = map<seq<Byte>, Stats>

  datatype Record = Record(name: seq<Byte>, value: int)

  /** A record and the index where the scan resumes after it. */
  datatype Scanned = Scanned(record: Record, next: nat)

  /** Where a value starting at `from` ends: at the next '\n' before `end`, or
      at `end` (the source's `unwrap_or(bytes.len())`). */
  function LineEnd(s: seq<Byte>, from: nat, end: nat): (r: nat)
    requires from <= end <= |s|
    ensures from <= r <= end
    ensures r < end ==> s[r] == NEWLINE
  {
    match Position(s, NEWLINE, from, end)
    case Some(newline) => newline
    case None => end
  }

  /** No '\n' lies between `from` and the end of its line. */
  lemma LineEndSpec(s: seq<Byte>, from: nat, end: nat)
    requires from <= end <= |s|
    ensures forall k :: from <= k < LineEnd(s, from, end) ==> s[k] != NEWLINE
  {
    PositionSpec(s, NEWLINE, from, end);
  }

  /** The facts in LineEnd's contract and LineEndSpec pin its result down. */
  lemma LineEndIs(s: seq<Byte>, from: nat, end: nat, r: nat)
    requires from <= r <= end <= |s|
    requires r < end ==> s[r] == NEWLINE
    requires forall k :: from <= k < r ==> s[k] != NEWLINE
    ensures LineEnd(s, from, end) == r
  {
    if r < end {
      PositionIs(s, NEWLINE, from, end, r);
    } else {
      PositionNone(s, NEWLINE, from, end);
    }
  }

  /** Both lists of records, or the first error of the two. */
  function Concat(a: Result<seq<Record>, Error>, b: Result<seq<Record>, Error>): Result<seq<Record>, Error> {
    match a
    case Err(e) => Err(e)
    case Ok(xs) =>
      match b
      case Err(e) => Err(e)
      case Ok(ys) => Ok(xs + ys)
  }

  /** The value of the record whose ';' is at `semi` and whose line ends at
      `newline`: an empty slice is the index panic in `parse_f32`, a slice it
      refuses is "failed to parse special-case f32". */
  function ValueAt(s: seq<Byte>, semi: nat, newline: nat): (r: Result<int, Error>)
    requires semi < newline <= |s|
    ensures r == Err(EmptyValue) <==> semi + 1 == newline
    ensures r.Ok? <==> semi + 1 < newline && Accepted(s[semi + 1..newline])
    ensures r.Ok? ==> -999 <= r.value <= 999
  {
    if semi + 1 == newline then Err(EmptyValue)
    else
      match ParseTenths(s[semi + 1..newline])
      case None => Err(BadValue)
      case Some(value) => Ok(value)
  }

  /** The record starting at index `i` of the chunk ending at `end`, and the index
      one past its '\n' where the scan resumes (`end + 1` when the record runs to
      the end of the chunk). The name runs to the first ';', even across a '\n';
      the value runs from there to the next '\n' or to the end of the chunk. */
  function RecordAt(s: seq<Byte>, end: nat, i: nat): (r: Result<Scanned, Error>)
    requires i < end <= |s|
    ensures r.Ok? ==> i < r.value.next <= end + 1
  {
    match Position(s, SEMICOLON, i, end)
    case None => Err(MissingSemicolon)
    case Some(semi) => RecordBetween(s, i, semi, LineEnd(s, semi + 1, end))
  }

  /** The record whose name starts at `i`, whose ';' is at `semi` and whose line
      ends at `newline`. */
  function RecordBetween(s: seq<Byte>, i: nat, semi: nat, newline: nat): (r: Result<Scanned, Error>)
    requires i <= semi < newline <= |s|
    ensures r.Ok? ==> r.value.next == newline + 1
  {
    match ValueAt(s, semi, newline)
    case Err(e) => Err(e)
    case Ok(value) => Ok(Scanned(Record(s[i..semi], value), newline + 1))
  }

  /** The records of the chunk ending at `end` from index `i` on, in order, or the
      error that stops the scan. */
  function RecordsFrom(s: seq<Byte>, end: nat, i: nat): Result<seq<Record>, Error>
    requires end <= |s|
    decreases end + 1 - i
  {
    if i >= end then Ok([])
    else
      match RecordAt(s, end, i)
      case Err(e) => Err(e)
      case Ok(scanned) => Concat(Ok([scanned.record]), RecordsFrom(s, end, scanned.next))
  }

  /** Lines 86-91: a new name gets a singleton, a known one is updated. Either
      way the name's entry holds one more reading, and no other entry changes. */
  function Insert(t: Table, rec: Record): (r: Table)
    ensures r.Keys == t.Keys + {rec.name}
    ensures forall k :: k in t && k != rec.name ==> r[k] == t[k]
    ensures r[rec.name].count == (if rec.name in t then t[rec.name].count else 0) + 1
    ensures r[rec.name].sum == (if rec.name in t then t[rec.name].sum else 0) + rec.value
  {
    if rec.name in t then t[rec.name := t[rec.name].Update(rec.value)]
    else t[rec.name := Singleton(rec.value)]
  }

  /** The table built from `recs`, one record after another. */
  function TableOf(recs: seq<Record>): Table {
    if |recs| == 0 then map[] else Insert(TableOf(recs[..|recs| - 1]), recs[|recs| - 1])
  }

  /** The readings recorded under `name`, in order. */
  function ValuesOf(recs: seq<Record>, name: seq<Byte>): seq<int> {
    if |recs| == 0 then []
    else
      var last := recs[|recs| - 1];
      ValuesOf(recs[..|recs| - 1], name) + (if last.name == name then [last.value] else [])
  }

  predicate ReadingsInRange(recs: seq<Record>) {
    forall i :: 0 <= i < |recs| ==> -F32_MAX_TENTHS <= recs[i].value <= F32_MAX_TENTHS
  }

  /** The table holds a name exactly when some record carries it, and its entry
      then summarises that name's readings: their number, least, greatest and total. */
  lemma {:induction false} TableOfAccounts(recs: seq<Record>, name: seq<Byte>)
    requires ReadingsInRange(recs)
    ensures name in TableOf(recs) <==> |ValuesOf(recs, name)| > 0
    ensures name in TableOf(recs) ==> TableOf(recs)[name] == Summary(ValuesOf(recs, name))
  {
    if |recs| > 0 {
      var prefix, last := recs[..|recs| - 1], recs[|recs| - 1];
      assert ReadingsInRange(prefix) by {
        forall i | 0 <= i < |prefix| ensures -F32_MAX_TENTHS <= prefix[i].value <= F32_MAX_TENTHS {
          assert prefix[i] == recs[i];
        }
      }
      TableOfAccounts(prefix, name);
      if last.name == name {
        var before := ValuesOf(prefix, name);
        assert ValuesOf(recs, name) == before + [last.value];
        if name in TableOf(prefix) {
          UpdateSummary(before, last.value);
        } else {
          assert Singleton(last.value) == Summary([last.value]);
          assert before + [last.value] == [last.value];
        }
      } else {
        assert ValuesOf(recs, name) == ValuesOf(prefix, name) + [];
        assert ValuesOf(prefix, name) + [] == ValuesOf(prefix, name);
      }
    }
  }

  /** The entry of a name spelled out: count, least and greatest reading, total. */
  lemma TableOfEntry(recs: seq<Record>, name: seq<Byte>)
    requires ReadingsInRange(recs) && name in TableOf(recs)
    ensures var vs, st := ValuesOf(recs, name), TableOf(recs)[name];
            && st.count == |vs| > 0
            && st.min in vs && (forall i :: 0 <= i < |vs| ==> st.min <= vs[i])
            && st.max in vs && (forall i :: 0 <= i < |vs| ==> vs[i] <= st.max)
            && st.sum == Total(vs)
  {
    TableOfAccounts(recs, name);
    ValuesInRange(recs, name);
  }

  lemma {:induction false} ValuesInRange(recs: seq<Record>, name: seq<Byte>)
    requires ReadingsInRange(recs)
    ensures forall i :: 0 <= i < |ValuesOf(recs, name)| ==>
              -F32_MAX_TENTHS <= ValuesOf(recs, name)[i] <= F32_MAX_TENTHS
  {
    if |recs| > 0 {
      var prefix := recs[..|recs| - 1];
      assert ReadingsInRange(prefix) by {
        forall i | 0 <= i < |prefix| ensures -F32_MAX_TENTHS <= prefix[i].value <= F32_MAX_TENTHS {
          assert prefix[i] == recs[i];
        }
      }
      ValuesInRange(prefix, name);
    }
  }

  /** What `chunk_stats` returns for the chunk `[start, end)`. */
  function ChunkTable(s: seq<Byte>, start: nat, end: nat): Result<Table, Error>
    requires end <= |s|
  {
    match RecordsFrom(s, end, start)
    case Ok(recs) => Ok(TableOf(recs))
    case Err(e) => Err(e)
  }

  // ----- The scan as the source runs it -----

  lemma ConcatAssociative(a: Result<seq<Record>, Error>, b: Result<seq<Record>, Error>, c: Result<seq<Record>, Error>)
    ensures Concat(Concat(a, b), c) == Concat(a, Concat(b, c))
  {
    if a.Ok? && b.Ok? && c.Ok? {
      assert (a.value + b.value) + c.value == a.value + (b.value + c.value);
    }
  }

  lemma ConcatUnit(a: Result<seq<Record>, Error>)
    ensures Concat(Ok([]), a) == a
    ensures Concat(a, Ok([])) == a
  {
    if a.Ok? {
      assert [] + a.value == a.value;
      assert a.value + [] == a.value;
    }
  }

  /** Consuming the record at `i` moves it from the records still to scan to those done. */
  lemma ScanStep(s: seq<Byte>, end: nat, i: nat, done: seq<Record>)
    requires i < end <= |s| && RecordAt(s, end, i).Ok?
    ensures Concat(Ok(done), RecordsFrom(s, end, i))
         == Concat(Ok(done + [RecordAt(s, end, i).value.record]), RecordsFrom(s, end, RecordAt(s, end, i).value.next))
  {
    var scanned := RecordAt(s, end, i).value;
    ConcatAssociative(Ok(done), Ok([scanned.record]), RecordsFrom(s, end, scanned.next));
  }

  /** One turn of `chunk_stats`'s loop up to the table update: find the ';' at
      or after `i`, the '\n' after it, and parse the value between them. */
  method ScanRecord(bytes: seq<Byte>, end: nat, i: nat) returns (r: Result<Scanned, Error>)
    requires i < end <= |bytes|
    ensures r == RecordAt(bytes, end, i)
  {
    var found := Position(bytes, SEMICOLON, i, end);
    if found.None? {
      return Err(MissingSemicolon);
    }
    var semi := found.value;
    var newline := LineEnd(bytes, semi + 1, end);
    var name := bytes[i..semi];
    assert RecordAt(bytes, end, i) == RecordBetween(bytes, i, semi, newline);
    var value := ScanValue(bytes, semi, newline);
    if value.Err? {
      return Err(value.error);
    }
    return Ok(Scanned(Record(name, value.value), newline + 1));
  }

  /** Lines 83-84: the value between the ';' at `semi` and the end of its line. */
  method ScanValue(bytes: seq<Byte>, semi: nat, newline: nat) returns (r: Result<int, Error>)
    requires semi < newline <= |bytes|
    ensures r == ValueAt(bytes, semi, newline)
  {
    if semi + 1 == newline {
      return Err(EmptyValue);
    }
    var value := ParseTenths(bytes[semi + 1..newline]);
    if value.None? {
      return Err(BadValue);
    }
    return Ok(value.value);
  }

  /** `chunk_stats` on the chunk `[start, end)`: the table of its records, or
      the first error. */
  method ChunkStats(bytes: seq<Byte>, start: nat, end: nat) returns (r: Result<Table, Error>)
    requires start <= end <= |bytes|
    ensures r == ChunkTable(bytes, start, end)
  {
    var stats: Table := map[];
    var i: nat := start;
    ghost var done: seq<Record> := [];
    ConcatUnit(RecordsFrom(bytes, end, start));
    while i < end
      invariant stats == TableOf(done)
      invariant RecordsFrom(bytes, end, start) == Concat(Ok(done), RecordsFrom(bytes, end, i))
      decreases end + 1 - i
    {
      var scanned := ScanRecord(bytes, end, i);
      if scanned.Err? {
        return Err(scanned.error);
      }
      var record := scanned.value.record;
      if record.name !in stats {
        stats := stats[record.name := Singleton(record.value)];
      } else {
        stats := stats[record.name := stats[record.name].Update(record.value)];
      }
      ScanStep(bytes, end, i, done);
      assert (done + [record])[..|done|] == done;
      done := done + [record];
      i := scanned.value.next;
    }
    assert done + [] == done;
    return Ok(stats);
  }

  // ----- Errors and edge cases -----

  /** `semi` holds the first ';' of the chunk ending at `end` from `i` on. */
  predicate FirstSemicolon(s: seq<Byte>, end: nat, i: nat, semi: nat) {
    && i <= semi < end <= |s| && s[semi] == SEMICOLON
    && forall k :: i <= k < semi ==> s[k] != SEMICOLON
  }

  /** The scan reports "expected semicolon" exactly when no ';' is left in the
      chunk, an empty value exactly when the ';' found ends its line, and
      "failed to parse special-case f32" exactly when the value after that ';'
      is not a literal the parser accepts. */
  lemma RecordAtErrors(s: seq<Byte>, end: nat, i: nat)
    requires i < end <= |s|
    ensures RecordAt(s, end, i) == Err(MissingSemicolon) <==>
              forall k :: i <= k < end ==> s[k] != SEMICOLON
    ensures RecordAt(s, end, i) == Err(EmptyValue) <==>
              exists semi: nat :: FirstSemicolon(s, end, i, semi)
                && (semi + 1 == end || s[semi + 1] == NEWLINE)
    ensures RecordAt(s, end, i) == Err(BadValue) <==>
              exists semi: nat :: FirstSemicolon(s, end, i, semi)
                && semi + 1 < LineEnd(s, semi + 1, end)
                && !Accepted(s[semi + 1..LineEnd(s, semi + 1, end)])
  {
    RecordAtMissing(s, end, i);
    RecordAtEmpty(s, end, i);
    RecordAtBad(s, end, i);
  }

  /** "expected semicolon": no ';' is left in the chunk. */
  lemma RecordAtMissing(s: seq<Byte>, end: nat, i: nat)
    requires i < end <= |s|
    ensures RecordAt(s, end, i) == Err(MissingSemicolon) <==>
              forall k :: i <= k < end ==> s[k] != SEMICOLON
  {
    PositionSpec(s, SEMICOLON, i, end);
    if Position(s, SEMICOLON, i, end).Some? {
      RecordAtValue(s, end, i, Position(s, SEMICOLON, i, end).value);
    }
  }

  /** An empty value: the first ';' ends its line or the chunk. */
  lemma RecordAtEmpty(s: seq<Byte>, end: nat, i: nat)
    requires i < end <= |s|
    ensures RecordAt(s, end, i) == Err(EmptyValue) <==>
              exists semi: nat :: FirstSemicolon(s, end, i, semi)
                && (semi + 1 == end || s[semi + 1] == NEWLINE)
  {
    PositionSpec(s, SEMICOLON, i, end);
    if Position(s, SEMICOLON, i, end).Some? {
      var semi := Position(s, SEMICOLON, i, end).value;
      RecordAtValue(s, end, i, semi);
      assert FirstSemicolon(s, end, i, semi);
      FirstSemicolonIs(s, end, i, semi);
    } else {
      assert RecordAt(s, end, i) == Err(MissingSemicolon);
      assert forall semi: nat :: !FirstSemicolon(s, end, i, semi);
    }
  }

  /** "failed to parse special-case f32": the value after the first ';' is
      not empty and not a literal the parser accepts. */
  lemma RecordAtBad(s: seq<Byte>, end: nat, i: nat)
    requires i < end <= |s|
    ensures RecordAt(s, end, i) == Err(BadValue) <==>
              exists semi: nat :: FirstSemicolon(s, end, i, semi)
                && semi + 1 < LineEnd(s, semi + 1, end)
                && !Accepted(s[semi + 1..LineEnd(s, semi + 1, end)])
  {
    PositionSpec(s, SEMICOLON, i, end);
    if Position(s, SEMICOLON, i, end).Some? {
      var semi := Position(s, SEMICOLON, i, end).value;
      RecordAtValue(s, end, i, semi);
      assert FirstSemicolon(s, end, i, semi);
      FirstSemicolonIs(s, end, i, semi);
    } else {
      assert RecordAt(s, end, i) == Err(MissingSemicolon);
      assert forall semi: nat :: !FirstSemicolon(s, end, i, semi);
    }
  }

  /** Every first ';' of the chunk from `i` on is the one the search finds. */
  lemma FirstSemicolonIs(s: seq<Byte>, end: nat, i: nat, semi: nat)
    requires i <= semi < end <= |s| && Position(s, SEMICOLON, i, end) == Some(semi)
    ensures forall other: nat :: FirstSemicolon(s, end, i, other) ==> other == semi
  {
    forall other | FirstSemicolon(s, end, i, other) ensures other == semi {
      PositionIs(s, SEMICOLON, i, end, other);
    }
  }

  /** Once the ';' at `semi` is found, the record's outcome is the value's. */
  lemma RecordAtValue(s: seq<Byte>, end: nat, i: nat, semi: nat)
    requires i <= semi < end <= |s| && Position(s, SEMICOLON, i, end) == Some(semi)
    ensures var newline := LineEnd(s, semi + 1, end);
            && (RecordAt(s, end, i) == Err(EmptyValue) <==> semi + 1 == end || s[semi + 1] == NEWLINE)
            && (RecordAt(s, end, i) == Err(BadValue) <==>
                  semi + 1 < newline && !Accepted(s[semi + 1..newline]))
            && RecordAt(s, end, i) != Err(MissingSemicolon)
  {
    var newline := LineEnd(s, semi + 1, end);
    LineEndSpec(s, semi + 1, end);
    assert RecordAt(s, end, i) == RecordBetween(s, i, semi, newline);
  }

  // ----- Well-formed records -----

  /** Every record a successful scan returns has a name without ';' and a value
      of at most 99.9 degrees either way. */
  predicate WellFormed(recs: seq<Record>) {
    forall k :: 0 <= k < |recs| ==>
      && -999 <= recs[k].value <= 999
      && forall j :: 0 <= j < |recs[k].name| ==> recs[k].name[j] != SEMICOLON
  }

  lemma {:induction false} RecordsWellFormed(s: seq<Byte>, end: nat, i: nat)
    requires end <= |s|
    ensures RecordsFrom(s, end, i).Ok? ==> WellFormed(RecordsFrom(s, end, i).value)
    decreases end + 1 - i
  {
    if i < end && RecordAt(s, end, i).Ok? {
      var scanned := RecordAt(s, end, i).value;
      PositionSpec(s, SEMICOLON, i, end);
      RecordsWellFormed(s, end, scanned.next);
      var rest := RecordsFrom(s, end, scanned.next);
      if rest.Ok? {
        var recs := [scanned.record] + rest.value;
        forall k | 0 <= k < |recs|
          ensures -999 <= recs[k].value <= 999
          ensures forall j :: 0 <= j < |recs[k].name| ==> recs[k].name[j] != SEMICOLON
        {
          if k > 0 {
            assert recs[k] == rest.value[k - 1];
          }
        }
      }
    }
  }

  lemma WellFormedInRange(recs: seq<Record>)
    requires WellFormed(recs)
    ensures ReadingsInRange(recs)
  {
    forall k | 0 <= k < |recs| ensures -F32_MAX_TENTHS <= recs[k].value <= F32_MAX_TENTHS {
      assert -999 <= recs[k].value <= 999;
    }
  }

  // ----- Lines -----

  /** Every line holds a ';': the first ';' after a line start comes before that
      line's end. Without it a name runs across a '\n', and cutting the buffer
      between lines can change what the scan reads. */
  predicate LinesHaveSemicolon(s: seq<Byte>) {
    forall c :: 0 <= c < |s| && LineStart(s, c) ==>
      && Position(s, SEMICOLON, c, |s|).Some?
      && Position(s, SEMICOLON, c, |s|).value < LineEnd(s, c, |s|)
  }

  /** A record that starts a line of the buffer ends at that line's '\n', after
      which the next line starts. */
  lemma RecordAtLine(s: seq<Byte>, i: nat)
    requires LineStart(s, i) && i < |s| && LinesHaveSemicolon(s)
    ensures RecordAt(s, |s|, i).Ok? ==> RecordAt(s, |s|, i).value.next == LineEnd(s, i, |s|) + 1
    ensures RecordAt(s, |s|, i).Ok? && RecordAt(s, |s|, i).value.next <= |s| ==>
              LineStart(s, RecordAt(s, |s|, i).value.next)
  {
    var semi := Position(s, SEMICOLON, i, |s|).value;
    var end := LineEnd(s, i, |s|);
    LineEndSpec(s, i, |s|);
    LineEndIs(s, semi + 1, |s|, end);
  }

  /** A chunk that ends at a line start reads the record at a line start before
      it as the whole buffer does. */
  lemma RecordAtWindow(s: seq<Byte>, e: nat, i: nat)
    requires LineStart(s, i) && LineStart(s, e) && i < e && LinesHaveSemicolon(s)
    ensures RecordAt(s, e, i) == RecordAt(s, |s|, i)
  {
    if e < |s| {
      SearchesInWindow(s, e, i);
      SameSearches(s, e, i);
    }
  }

  /** The record at `i` depends on the end of the chunk only through the two
      searches. */
  lemma SameSearches(s: seq<Byte>, e: nat, i: nat)
    requires i < e <= |s| && Position(s, SEMICOLON, i, |s|).Some?
    requires var semi := Position(s, SEMICOLON, i, |s|).value;
             && semi + 1 < e
             && Position(s, SEMICOLON, i, e) == Some(semi)
             && LineEnd(s, semi + 1, e) == LineEnd(s, semi + 1, |s|)
    ensures RecordAt(s, e, i) == RecordAt(s, |s|, i)
  {
    var semi := Position(s, SEMICOLON, i, |s|).value;
    var newline := LineEnd(s, semi + 1, e);
    assert RecordAt(s, e, i) == RecordBetween(s, i, semi, newline);
  }

  /** Within a line that ends before `e`, the searches for its ';' and its '\n'
      find the same bytes whether they stop at `e` or at the end of `s`. */
  lemma SearchesInWindow(s: seq<Byte>, e: nat, i: nat)
    requires LineStart(s, i) && LineStart(s, e) && i < e < |s| && LinesHaveSemicolon(s)
    ensures Position(s, SEMICOLON, i, |s|).Some?
    ensures var semi := Position(s, SEMICOLON, i, |s|).value;
            && semi + 1 < e
            && Position(s, SEMICOLON, i, e) == Some(semi)
            && LineEnd(s, semi + 1, e) == LineEnd(s, semi + 1, |s|)
  {
    var end := LineEnd(s, i, |s|);
    LineEndSpec(s, i, |s|);
    assert end <= e - 1 by {
      assert s[e - 1] == NEWLINE;
    }
    var semi := Position(s, SEMICOLON, i, |s|).value;
    PositionSpec(s, SEMICOLON, i, |s|);
    PositionIs(s, SEMICOLON, i, e, semi);
    LineEndIs(s, semi + 1, |s|, end);
    LineEndIs(s, semi + 1, e, end);
  }

  /** Scanning from line start `i` to line start `e` reads the lines before line
      start `c`, then the lines after it: the scan splits at every line start. */
  lemma {:induction false} RecordsSplit(s: seq<Byte>, e: nat, i: nat, c: nat)
    requires LineStart(s, i) && LineStart(s, c) && LineStart(s, e) && i <= c <= e
    requires LinesHaveSemicolon(s)
    ensures RecordsFrom(s, e, i) == Concat(RecordsFrom(s, c, i), RecordsFrom(s, e, c))
    decreases c - i
  {
    if c == e {
      ConcatUnit(RecordsFrom(s, e, i));
    } else if i == c {
      ConcatUnit(RecordsFrom(s, e, c));
    } else {
      RecordAtWindow(s, e, i);
      RecordAtWindow(s, c, i);
      RecordAtLine(s, i);
      LineEndSpec(s, i, |s|);
      assert LineEnd(s, i, |s|) <= c - 1 by {
        assert s[c - 1] == NEWLINE;
      }
      if RecordAt(s, e, i).Ok? {
        var scanned := RecordAt(s, e, i).value;
        RecordsSplit(s, e, scanned.next, c);
        ConcatAssociative(Ok([scanned.record]), RecordsFrom(s, c, scanned.next), RecordsFrom(s, e, c));
      }
    }
  }

  /** Without a ';' on every line the split can change the outcome: the name
      of "a\nb;1.0\n" runs across its first '\n', so the whole buffer is one
      record while its first line alone lacks a ';'. */
  lemma NameAcrossNewline()
    ensures var s := Ascii("a\nb;1.0\n");
            && LineStart(s, 2)
            && RecordsFrom(s, |s|, 0) == Ok([Record(s[0..3], 10)])
            && RecordsFrom(s, 2, 0) == Err(MissingSemicolon)
  {
    var s := Ascii("a\nb;1.0\n");
    PositionIs(s, SEMICOLON, 0, |s|, 3);
    LineEndIs(s, 4, |s|, 7);
    assert ParseTenths(s[4..7]) == Some(10);
    assert RecordAt(s, |s|, 0) == Ok(Scanned(Record(s[0..3], 10), 8));
    assert RecordsFrom(s, |s|, 8) == Ok([]);
    ConcatUnit(Ok([Record(s[0..3], 10)]));
    PositionNone(s, SEMICOLON, 0, 2);
  }
}
