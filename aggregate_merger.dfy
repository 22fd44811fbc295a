/** The merge in `main`: every chunk's table is folded into one global table,
    entry by entry, with `stats.entry(k).or_default().merge(st)`. */
module AggregateMerger {
  import opened Bytes
  import opened Statistics
  import opened ChunkAggregator

  /** `entry(k).or_default()`: the entry of `k`, or `Stats::default()`, which
      holds no reading and changes nothing it is merged with inside the `f32` range. */
  function Entry(t: Table, k: seq<Byte>): (r: Stats)
    ensures k in t ==> r == t[k]
    ensures k !in t ==> r.count == 0 && forall st :: InF32Range(st) ==> r.Merge(st) == st
  {
    if k in t then t[k] else Default()
  }

  /** How many readings the table holds for `k`. */
  function Count(t: Table, k: seq<Byte>): nat {
    if k in t then t[k].count else 0
  }

  /** The global table after every entry of `b` is merged into `a`. */
  function MergeTables(a: Table, b: Table): (r: Table)
    ensures r.Keys == a.Keys + b.Keys
    ensures forall k :: Count(r, k) == Count(a, k) + Count(b, k)
  {
    map k | k in a.Keys + b.Keys :: if k in b then Entry(a, k).Merge(b[k]) else a[k]
  }

  /** Every entry lies inside the `f32` range, where `Default` is an identity. */
  predicate TableInRange(t: Table) {
    forall k :: k in t ==> InF32Range(t[k])
  }

  /** Lines 31-33: the entries of `chunk`, in whatever order the hash map yields
      them, each merged into the entry of its key. */
  method MergeInto(stats: Table, chunk: Table) returns (r: Table)
    ensures r == MergeTables(stats, chunk)
  {
    r := stats;
    var pending := chunk.Keys;
    while pending != {}
      invariant pending <= chunk.Keys
      invariant r.Keys == stats.Keys + (chunk.Keys - pending)
      invariant forall k :: k in r ==>
                  r[k] == if k in chunk && k !in pending then Entry(stats, k).Merge(chunk[k]) else stats[k]
      decreases pending
    {
      var k :| k in pending;
      r := r[k := Entry(r, k).Merge(chunk[k])];
      pending := pending - {k};
    }
  }

  // ----- The merge algebra, lifted to tables -----

  lemma MergeTablesInRange(a: Table, b: Table)
    requires TableInRange(a) && TableInRange(b)
    ensures TableInRange(MergeTables(a, b))
  {
    var r := MergeTables(a, b);
    forall k | k in r ensures InF32Range(r[k]) {
      if k !in a {
        assert Entry(a, k) == Default();
      }
    }
  }

  /** The order of two tables does not matter. */
  lemma MergeTablesCommutative(a: Table, b: Table)
    requires TableInRange(a) && TableInRange(b)
    ensures MergeTables(a, b) == MergeTables(b, a)
  {
    var ab, ba := MergeTables(a, b), MergeTables(b, a);
    forall k | k in ab ensures ab[k] == ba[k] {
      if k in a && k in b {
        MergeCommutative(a[k], b[k]);
      } else if k in a {
        DefaultIsIdentity(a[k]);
      } else {
        DefaultIsIdentity(b[k]);
      }
    }
  }

  /** Neither does the grouping of three. */
  lemma MergeTablesAssociative(a: Table, b: Table, c: Table)
    requires TableInRange(a) && TableInRange(b) && TableInRange(c)
    ensures MergeTables(MergeTables(a, b), c) == MergeTables(a, MergeTables(b, c))
  {
    var left, right := MergeTables(MergeTables(a, b), c), MergeTables(a, MergeTables(b, c));
    forall k | k in left ensures left[k] == right[k] {
      if k in a {
        DefaultIsIdentity(a[k]);
      }
      if k in b {
        DefaultIsIdentity(b[k]);
      }
      if k in c {
        DefaultIsIdentity(c[k]);
      }
      MergeAssociative(Entry(a, k), Entry(b, k), Entry(c, k));
    }
  }

  /** The empty table, where `main` starts, changes nothing on either side. */
  lemma MergeTablesIdentity(a: Table)
    requires TableInRange(a)
    ensures MergeTables(map[], a) == a && MergeTables(a, map[]) == a
  {
    forall k | k in a ensures MergeTables(map[], a)[k] == a[k] {
      DefaultIsIdentity(a[k]);
    }
  }

  // ----- Merged tables of records -----

  /** A name's readings in two runs of records, one after the other. */
  lemma {:induction false} ValuesOfAppend(a: seq<Record>, b: seq<Record>, name: seq<Byte>)
    ensures ValuesOf(a + b, name) == ValuesOf(a, name) + ValuesOf(b, name)
  {
    if |b| == 0 {
      assert a + b == a;
    } else {
      var prefix, last := b[..|b| - 1], b[|b| - 1];
      assert (a + b)[..|a + b| - 1] == a + prefix;
      assert (a + b)[|a + b| - 1] == last;
      ValuesOfAppend(a, prefix, name);
    }
  }

  /** The table of records is always inside the `f32` range. */
  lemma TableOfInRange(recs: seq<Record>)
    requires ReadingsInRange(recs)
    ensures TableInRange(TableOf(recs))
  {
    forall k | k in TableOf(recs) ensures InF32Range(TableOf(recs)[k]) {
      TableOfAccounts(recs, k);
    }
  }

  /** Scanning two runs of records separately and merging the tables gives the
      table of scanning them in one go. */
  lemma TableOfAppend(a: seq<Record>, b: seq<Record>)
    requires ReadingsInRange(a) && ReadingsInRange(b)
    ensures TableOf(a + b) == MergeTables(TableOf(a), TableOf(b))
  {
    var ta, tb, tab := TableOf(a), TableOf(b), TableOf(a + b);
    ReadingsInRangeAppend(a, b);
    forall k ensures k in tab <==> k in MergeTables(ta, tb) {
      TableOfAppendAt(a, b, k);
    }
    forall k | k in tab ensures tab[k] == MergeTables(ta, tb)[k] {
      TableOfAppendAt(a, b, k);
    }
  }

  lemma ReadingsInRangeAppend(a: seq<Record>, b: seq<Record>)
    requires ReadingsInRange(a) && ReadingsInRange(b)
    ensures ReadingsInRange(a + b)
  {
    forall i | 0 <= i < |a + b| ensures -F32_MAX_TENTHS <= (a + b)[i].value <= F32_MAX_TENTHS {
      if i >= |a| {
        assert (a + b)[i] == b[i - |a|];
      }
    }
  }

  /** One key of `TableOfAppend`. */
  lemma TableOfAppendAt(a: seq<Record>, b: seq<Record>, k: seq<Byte>)
    requires ReadingsInRange(a) && ReadingsInRange(b) && ReadingsInRange(a + b)
    ensures k in TableOf(a + b) <==> k in MergeTables(TableOf(a), TableOf(b))
    ensures k in TableOf(a + b) ==> TableOf(a + b)[k] == MergeTables(TableOf(a), TableOf(b))[k]
  {
    var ta, tb := TableOf(a), TableOf(b);
    var va, vb := ValuesOf(a, k), ValuesOf(b, k);
    TableOfAccounts(a, k);
    TableOfAccounts(b, k);
    TableOfAccounts(a + b, k);
    ValuesOfAppend(a, b, k);
    if k in tb {
      MergeSummaries(va, vb);
      if k !in ta {
        assert va == [];
        assert Entry(ta, k) == Summary(va);
      }
    } else {
      assert va + vb == va;
    }
  }

  // ----- Folding a sequence of tables -----

  /** The tables merged one after another into the empty table. */
  function FoldTables(ts: seq<Table>): Table {
    if |ts| == 0 then map[] else MergeTables(FoldTables(ts[..|ts| - 1]), ts[|ts| - 1])
  }

  predicate AllInRange(ts: seq<Table>) {
    forall i :: 0 <= i < |ts| ==> TableInRange(ts[i])
  }

  /** The keys of the fold are those of the tables, and each key's count is the
      sum of its counts in them. */
  lemma {:induction false} FoldTablesAccounts(ts: seq<Table>, k: seq<Byte>)
    ensures k in FoldTables(ts) <==> exists i :: 0 <= i < |ts| && k in ts[i]
    ensures Count(FoldTables(ts), k) == CountIn(ts, k)
  {
    if |ts| > 0 {
      var prefix := ts[..|ts| - 1];
      FoldTablesAccounts(prefix, k);
      if k in ts[|ts| - 1] {
      } else if k in FoldTables(prefix) {
        var i :| 0 <= i < |prefix| && k in prefix[i];
        assert ts[i] == prefix[i];
      } else {
        forall i | 0 <= i < |ts| ensures k !in ts[i] {
          if i < |ts| - 1 {
            assert ts[i] == prefix[i];
          }
        }
      }
    }
  }

  /** The readings of `k` in all the tables, counted table by table. */
  function CountIn(ts: seq<Table>, k: seq<Byte>): nat {
    if |ts| == 0 then 0 else CountIn(ts[..|ts| - 1], k) + Count(ts[|ts| - 1], k)
  }

  lemma {:induction false} FoldTablesInRange(ts: seq<Table>)
    requires AllInRange(ts)
    ensures TableInRange(FoldTables(ts))
  {
    if |ts| > 0 {
      FoldTablesInRange(ts[..|ts| - 1]);
      MergeTablesInRange(FoldTables(ts[..|ts| - 1]), ts[|ts| - 1]);
    }
  }

  /** Folding two runs of tables separately and merging the results is folding
      them in one go. */
  lemma {:induction false} FoldTablesAppend(xs: seq<Table>, ys: seq<Table>)
    requires AllInRange(xs) && AllInRange(ys)
    ensures FoldTables(xs + ys) == MergeTables(FoldTables(xs), FoldTables(ys))
  {
    FoldTablesInRange(xs);
    if |ys| == 0 {
      assert xs + ys == xs;
      MergeTablesIdentity(FoldTables(xs));
    } else {
      var prefix, last := ys[..|ys| - 1], ys[|ys| - 1];
      assert (xs + ys)[..|xs + ys| - 1] == xs + prefix;
      assert (xs + ys)[|xs + ys| - 1] == last;
      FoldTablesAppend(xs, prefix);
      FoldTablesInRange(prefix);
      MergeTablesAssociative(FoldTables(xs), FoldTables(prefix), last);
    }
  }

  /** Swapping two neighbouring tables leaves the fold unchanged; as every
      reordering is a series of such swaps, the order in which the threads are
      joined does not matter. */
  lemma FoldTablesSwap(xs: seq<Table>, a: Table, b: Table, ys: seq<Table>)
    requires AllInRange(xs) && TableInRange(a) && TableInRange(b) && AllInRange(ys)
    ensures FoldTables(xs + [a, b] + ys) == FoldTables(xs + [b, a] + ys)
  {
    var ab, ba := [a, b], [b, a];
    assert AllInRange(ab) && AllInRange(ba);
    FoldPair(a, b);
    FoldPair(b, a);
    MergeTablesCommutative(a, b);
    assert FoldTables(ab) == FoldTables(ba);
    FoldAround(xs, ab, ys);
    FoldAround(xs, ba, ys);
  }

  /** The fold of `xs + mid + ys` depends on `mid` only through its fold. */
  lemma FoldAround(xs: seq<Table>, mid: seq<Table>, ys: seq<Table>)
    requires AllInRange(xs) && AllInRange(mid) && AllInRange(ys)
    ensures FoldTables(xs + mid + ys) == MergeTables(MergeTables(FoldTables(xs), FoldTables(mid)), FoldTables(ys))
  {
    var front := xs + mid;
    assert AllInRange(front) by {
      forall i | 0 <= i < |front| ensures TableInRange(front[i]) {
        if i >= |xs| {
          assert front[i] == mid[i - |xs|];
        }
      }
    }
    FoldTablesAppend(front, ys);
    FoldTablesAppend(xs, mid);
  }

  lemma FoldPair(a: Table, b: Table)
    requires TableInRange(a)
    ensures FoldTables([a, b]) == MergeTables(a, b)
  {
    assert [a, b][..1] == [a];
    assert [a][..0] == [];
    assert FoldTables([a]) == MergeTables(map[], a);
    MergeTablesIdentity(a);
  }
}
