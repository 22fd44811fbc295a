/** `chunks`: cut the buffer into exactly `n` contiguous ranges, each cut placed
    just after a '\n', so that the threads can scan the ranges independently. */
module RangePlanner {
  import opened Outcomes
  import opened Bytes

  /** `(start, end)`, one chunk of the buffer. */
  datatype Range = Range(start: nat, end: nat)

  /** `bytes.len() * i / n`: where the search for the `i`-th cut begins. */
  function Offset(len: nat, n: nat, i: nat): (r: nat)
    requires n > 0 && i <= n
    ensures r <= len
    ensures i < n && len > 0 ==> r < len
  {
    OffsetBound(len, n, i);
    len * i / n
  }

  lemma OffsetBound(len: nat, n: nat, i: nat)
    requires n > 0 && i <= n
    ensures len * i / n <= len
    ensures i < n && len > 0 ==> len * i / n < len
  {
    var p := len * i;
    MulLeft(len, i, n);
    assert (len + 1) * n == len * n + n;
    DivBelow(p, n, len + 1);
    if i < n && len > 0 {
      MulLeft(len, i + 1, n);
      assert len * (i + 1) == p + len;
      DivBelow(p, n, len);
    }
  }

  /** `p / n < m` whenever `p < m * n`. */
  lemma DivBelow(p: nat, n: nat, m: nat)
    requires n > 0 && p < m * n
    ensures p / n < m
  {
    var q := p / n;
    assert q * n <= p;
    if q >= m {
      MulLeft(n, m, q);
    }
  }

  lemma MulLeft(a: nat, b: nat, c: nat)
    requires b <= c
    ensures a * b <= a * c
  {
  }

  /** The offsets never go backwards as `i` grows. */
  lemma OffsetMonotone(len: nat, n: nat, i: nat, j: nat)
    requires n > 0 && i <= j <= n
    ensures Offset(len, n, i) <= Offset(len, n, j)
  {
    MulLeft(len, i, j);
    DivMonotone(len * i, len * j, n);
  }

  lemma DivMonotone(a: nat, b: nat, n: nat)
    requires a <= b && n > 0
    ensures a / n <= b / n
  {
    if a / n > b / n {
      MulLeft(n, b / n + 1, a / n);
    }
  }

  /** The `i`-th cut as lines 54-58 write it: one past the first '\n' at or after
      the offset, or, when there is none, `offset + bytes.len() + 1`, because the
      fallback of the search is the whole length rather than the rest of it. */
  function CutAsWritten(bytes: seq<Byte>, n: nat, i: nat): (r: nat)
    requires n > 0 && i <= n
    ensures r <= |bytes| ==> 0 < r && bytes[r - 1] == NEWLINE
    ensures r > |bytes| ==> r == Offset(|bytes|, n, i) + |bytes| + 1
  {
    var offset := Offset(|bytes|, n, i);
    match Position(bytes, NEWLINE, offset, |bytes|)
    case Some(newline) => newline + 1
    case None => offset + |bytes| + 1
  }

  /** The clamped `i`-th cut: one past the first '\n' at or after the offset,
      or the buffer's length when there is none. */
  function Cut(bytes: seq<Byte>, n: nat, i: nat): (r: nat)
    requires n > 0 && i <= n
    ensures r <= |bytes|
  {
    var offset := Offset(|bytes|, n, i);
    match Position(bytes, NEWLINE, offset, |bytes|)
    case Some(newline) => newline + 1
    case None => |bytes|
  }

  /** All the cuts of `chunks`: 0, the `n - 1` searched cuts, then the length. */
  function Cuts(bytes: seq<Byte>, n: nat): (r: seq<nat>)
    requires n > 0
    ensures |r| == n + 1
  {
    [0] + seq(n - 1, k requires 0 <= k < n - 1 => Cut(bytes, n, k + 1)) + [|bytes|]
  }

  /** `tuple_windows`: each cut paired with the next one. */
  function Windows(cuts: seq<nat>): (r: seq<Range>)
    requires |cuts| > 0
    ensures |r| == |cuts| - 1
    ensures forall k :: 0 <= k < |r| ==> r[k] == Range(cuts[k], cuts[k + 1])
  {
    seq(|cuts| - 1, k requires 0 <= k < |cuts| - 1 => Range(cuts[k], cuts[k + 1]))
  }

  /** `chunks(bytes, n)`, with the clamped cut; `n == 0` fails the
      source's `assert_ne!`. */
  method Chunks(bytes: seq<Byte>, n: nat) returns (r: seq<Range>)
    requires n > 0
    ensures r == Windows(Cuts(bytes, n))
  {
    var cuts: seq<nat> := [0];
    var i := 1;
    while i <= n - 1
      invariant 1 <= i <= n
      invariant |cuts| == i && cuts[0] == 0
      invariant forall k :: 1 <= k < i ==> cuts[k] == Cut(bytes, n, k)
    {
      var offset := |bytes| * i / n;
      assert offset == Offset(|bytes|, n, i);
      var found := Position(bytes, NEWLINE, offset, |bytes|);
      var cut := if found.Some? then found.value + 1 else |bytes|;
      cuts := cuts + [cut];
      i := i + 1;
    }
    cuts := cuts + [|bytes|];
    assert cuts == Cuts(bytes, n);
    r := Windows(cuts);
  }

  // ----- What the ranges promise -----

  /** Every searched cut lies just after a '\n' or at the end of the buffer. */
  lemma CutIsLineStart(bytes: seq<Byte>, n: nat, i: nat)
    requires n > 0 && i <= n
    ensures LineStart(bytes, Cut(bytes, n, i))
  {
  }

  /** The `i`-th cut is one past the first '\n' at or after the offset, or the
      length when no '\n' follows the offset. */
  lemma CutAfterFirstNewline(bytes: seq<Byte>, n: nat, i: nat)
    requires n > 0 && i <= n
    ensures var offset, cut := Offset(|bytes|, n, i), Cut(bytes, n, i);
            && ((exists p :: offset <= p < |bytes| && bytes[p] == NEWLINE) ==>
                  && offset < cut && bytes[cut - 1] == NEWLINE
                  && forall k :: offset <= k < cut - 1 ==> bytes[k] != NEWLINE)
            && ((forall k :: offset <= k < |bytes| ==> bytes[k] != NEWLINE) ==> cut == |bytes|)
  {
    PositionSpec(bytes, NEWLINE, Offset(|bytes|, n, i), |bytes|);
  }

  /** Later offsets never cut earlier. */
  lemma CutMonotone(bytes: seq<Byte>, n: nat, i: nat, j: nat)
    requires n > 0 && i <= j <= n
    ensures Cut(bytes, n, i) <= Cut(bytes, n, j)
  {
    var a, b := Offset(|bytes|, n, i), Offset(|bytes|, n, j);
    OffsetMonotone(|bytes|, n, i, j);
    var p, q := Position(bytes, NEWLINE, a, |bytes|), Position(bytes, NEWLINE, b, |bytes|);
    if p.Some? && q.Some? {
      PositionSpec(bytes, NEWLINE, a, |bytes|);
    } else if p.None? && q.Some? {
      PositionSpec(bytes, NEWLINE, a, |bytes|);
    }
  }

  /** The cuts start at 0, end at the length, never go backwards, and every one
      is a line start. */
  lemma CutsOrdered(bytes: seq<Byte>, n: nat)
    requires n > 0
    ensures var cuts := Cuts(bytes, n);
            && cuts[0] == 0 && cuts[n] == |bytes|
            && (forall j, k :: 0 <= j <= k <= n ==> cuts[j] <= cuts[k])
            && (forall k :: 0 <= k <= n ==> LineStart(bytes, cuts[k]))
  {
    var cuts := Cuts(bytes, n);
    forall j, k | 0 <= j <= k <= n ensures cuts[j] <= cuts[k] {
      if 0 < j && k < n {
        CutMonotone(bytes, n, j, k);
      }
    }
    forall k | 0 <= k <= n ensures LineStart(bytes, cuts[k]) {
      if 0 < k < n {
        CutIsLineStart(bytes, n, k);
      }
    }
  }

  /** The ranges of `chunks`: exactly `n`, lying end to end from 0 to the length,
      each within the buffer and each cut at a line start. */
  lemma ChunksPartition(bytes: seq<Byte>, n: nat)
    requires n > 0
    ensures var r := Windows(Cuts(bytes, n));
            && |r| == n
            && r[0].start == 0 && r[n - 1].end == |bytes|
            && (forall k :: 0 <= k < n ==> r[k].start <= r[k].end <= |bytes|)
            && (forall k :: 0 <= k < n - 1 ==> r[k].end == r[k + 1].start)
            && (forall k :: 0 <= k < n ==> LineStart(bytes, r[k].start) && LineStart(bytes, r[k].end))
  {
    CutsOrdered(bytes, n);
  }

  // ----- The cut as written -----

  /** When the buffer ends with a '\n', every offset before the end finds one,
      and the cut as written is the clamped cut. */
  lemma CutAsWrittenAgrees(bytes: seq<Byte>, n: nat, i: nat)
    requires n > 0 && 0 < i < n
    requires |bytes| > 0 && bytes[|bytes| - 1] == NEWLINE
    ensures CutAsWritten(bytes, n, i) == Cut(bytes, n, i)
  {
    var offset := Offset(|bytes|, n, i);
    PositionSpec(bytes, NEWLINE, offset, |bytes|);
  }

  /** Without a '\n' after the offset, the cut as written lies beyond the end of
      the buffer, so slicing the chunk panics: for the 5-byte buffer "X;1.0" and
      two threads the first range is `(0, 8)`. */
  lemma CutAsWrittenOverruns()
    ensures var bytes := Ascii("X;1.0");
            && |bytes| == 5
            && CutAsWritten(bytes, 2, 1) == 8
            && Cut(bytes, 2, 1) == 5
  {
    var bytes := Ascii("X;1.0");
    assert Offset(5, 2, 1) == 2;
    PositionNone(bytes, NEWLINE, 2, 5);
  }

  /** In general: whenever no '\n' follows the offset, the cut as written
      overruns the buffer. */
  lemma CutAsWrittenOverrunsWhenNoNewline(bytes: seq<Byte>, n: nat, i: nat)
    requires n > 0 && i <= n
    requires forall k :: Offset(|bytes|, n, i) <= k < |bytes| ==> bytes[k] != NEWLINE
    ensures CutAsWritten(bytes, n, i) > |bytes|
  {
    PositionNone(bytes, NEWLINE, Offset(|bytes|, n, i), |bytes|);
  }
}
