/** Bytes of the input buffer, the ASCII constants the scanner looks for, and
    `position`, the first-occurrence search every component uses. */
module Bytes {
  import opened Outcomes

  newtype Byte = b: int | 0 <= b < 256

  const NEWLINE: Byte := 10     // '\n'
  const MINUS: Byte := 45       // '-'
  const DOT: Byte := 46         // '.'
  const DIGIT_ZERO: Byte := 48  // '0'
  const SEMICOLON: Byte := 59   // ';'

  /** Index `c` starts a line of `s`: the start or end of `s`, or just after a '\n'.
      These are the places where the buffer may be cut into chunks. */
  predicate LineStart(s: seq<Byte>, c: nat) {
    c <= |s| && (c == 0 || c == |s| || s[c - 1] == NEWLINE)
  }

  /** The bytes of an ASCII string literal. */
  function Ascii(s: string): (r: seq<Byte>)
    requires forall i :: 0 <= i < |s| ==> s[i] < 256 as char
    ensures |r| == |s| && forall i :: 0 <= i < |s| ==> r[i] as int == s[i] as int
  {
    seq(|s|, i requires 0 <= i < |s| => s[i] as int as Byte)
  }

  /** `s[from..limit].iter().position(|&x| x == b)`, counted from the start of `s`
      rather than from `from`: the index of the first `b` in the window
      `[from, limit)`. */
  function Position(s: seq<Byte>, b: Byte, from: nat, limit: nat): (r: Option<nat>)
    requires from <= limit <= |s|
    ensures r.Some? ==> from <= r.value < limit && s[r.value] == b
    decreases limit - from
  {
    if from == limit then None
    else if s[from] == b then Some(from)
    else Position(s, b, from + 1, limit)
  }

  /** No `b` lies in the window before the index found, nor anywhere in it when
      none is found. */
  lemma {:induction false} PositionSpec(s: seq<Byte>, b: Byte, from: nat, limit: nat)
    requires from <= limit <= |s|
    ensures Position(s, b, from, limit).Some? ==>
              forall k :: from <= k < Position(s, b, from, limit).value ==> s[k] != b
    ensures Position(s, b, from, limit).None? ==>
              forall k :: from <= k < limit ==> s[k] != b
    decreases limit - from
  {
    if from < limit && s[from] != b {
      PositionSpec(s, b, from + 1, limit);
    }
  }

  /** Position's contract pins a found index down ... */
  lemma {:induction false} PositionIs(s: seq<Byte>, b: Byte, from: nat, limit: nat, p: nat)
    requires from <= p < limit <= |s| && s[p] == b
    requires forall k :: from <= k < p ==> s[k] != b
    ensures Position(s, b, from, limit) == Some(p)
    decreases p - from
  {
    if from < p {
      PositionIs(s, b, from + 1, limit, p);
    }
  }

  /** ... and a missing one. */
  lemma {:induction false} PositionNone(s: seq<Byte>, b: Byte, from: nat, limit: nat)
    requires from <= limit <= |s|
    requires forall k :: from <= k < limit ==> s[k] != b
    ensures Position(s, b, from, limit) == None
    decreases limit - from
  {
    if from < limit {
      PositionNone(s, b, from + 1, limit);
    }
  }
}
