/** The special-case temperature parser: literals `d.d` and `dd.d`, each with an
    optional leading '-', read as an exact whole number of tenths. */
module FixedPoint {
  import opened Outcomes
  import opened Bytes

  predicate IsDigit(c: Byte) {
    DIGIT_ZERO <= c <= DIGIT_ZERO + 9
  }

  /** The ASCII byte of decimal digit `d`. */
  function DigitByte(d: nat): Byte
    requires d < 10
  {
    (DIGIT_ZERO as int + d) as Byte
  }

  /** `(c as char).to_digit(10)`. */
  function ToDigit(c: Byte): (r: Option<nat>)
    ensures r.Some? <==> IsDigit(c)
    ensures r.Some? ==> r.value < 10 && DigitByte(r.value) == c
  {
    if IsDigit(c) then Some(c as int - DIGIT_ZERO as int) else None
  }

  /** The literal after one optional leading '-' is stripped. */
  function Unsigned(s: seq<Byte>): seq<Byte>
    requires |s| > 0
  {
    if s[0] == MINUS then s[1..] else s
  }

  /** The accepted grammar: `d.d` or `dd.d`, optionally preceded by one '-'. */
  predicate Accepted(s: seq<Byte>)
    requires |s| > 0
  {
    var t := Unsigned(s);
    || (|t| == 3 && IsDigit(t[0]) && t[1] == DOT && IsDigit(t[2]))
    || (|t| == 4 && IsDigit(t[0]) && IsDigit(t[1]) && t[2] == DOT && IsDigit(t[3]))
  }

  /** `parse_f32`, with the value counted in tenths instead of as an `f32`.
      An empty slice makes the source index out of bounds, hence the requires. */
  function ParseTenths(s: seq<Byte>): (r: Option<int>)
    requires |s| > 0
    ensures r.Some? <==> Accepted(s)
    ensures r.Some? ==> -999 <= r.value <= 999
    ensures r.Some? && r.value < 0 ==> s[0] == MINUS
    ensures r.Some? && s[0] == MINUS ==> r.value <= 0
  {
    var t := Unsigned(s);
    var magnitude :-
      if |t| == 3 then
        if t[1] != DOT then None
        else
          var x :- ToDigit(t[0]);
          var y :- ToDigit(t[2]);
          Some(10 * x + y)
      else if |t| == 4 then
        if t[2] != DOT then None
        else
          var a :- ToDigit(t[0]);
          var b :- ToDigit(t[1]);
          var c :- ToDigit(t[3]);
          Some(100 * a + 10 * b + c)
      else None;
    // the source multiplies by a sign of -1 or 1
    Some(if s[0] == MINUS then -magnitude else magnitude)
  }

  /** The canonical literal of a value of at most 99.9 in magnitude: no leading
      zero, and no '-' on zero. */
  function Format(tenths: int): (r: seq<Byte>)
    requires -999 <= tenths <= 999
  {
    var m := if tenths < 0 then -tenths else tenths;
    var digits :=
      if m < 100 then [DigitByte(m / 10), DOT, DigitByte(m % 10)]
      else [DigitByte(m / 100), DigitByte(m / 10 % 10), DOT, DigitByte(m % 10)];
    if tenths < 0 then [MINUS] + digits else digits
  }

  /** Every value the parser can return has a literal it reads back exactly. */
  lemma ParseFormat(tenths: int)
    requires -999 <= tenths <= 999
    ensures |Format(tenths)| > 0 && ParseTenths(Format(tenths)) == Some(tenths)
  {
    var m := if tenths < 0 then -tenths else tenths;
    var s := Format(tenths);
    assert Unsigned(s) == Format(m);
    if m < 100 {
      assert m == 10 * (m / 10) + m % 10;
    } else {
      assert m == 100 * (m / 100) + 10 * (m / 10 % 10) + m % 10;
    }
  }

  /** The value read from an accepted literal, digit by digit, with its sign. */
  lemma ParseValue(s: seq<Byte>)
    requires |s| > 0 && Accepted(s)
    ensures var t := Unsigned(s);
            var sign := if s[0] == MINUS then -1 else 1;
            ParseTenths(s) == Some(sign * (if |t| == 3
                                           then 10 * (t[0] as int - 48) + (t[2] as int - 48)
                                           else 100 * (t[0] as int - 48) + 10 * (t[1] as int - 48) + (t[3] as int - 48)))
  {
  }

  /** Sample literals, accepted and rejected. */
  lemma ParseExamples()
    ensures ParseTenths(Ascii("5.0")) == Some(50)
    ensures ParseTenths(Ascii("-9.8")) == Some(-98)
    ensures ParseTenths(Ascii("23.4")) == Some(234)
    ensures ParseTenths(Ascii("-99.9")) == Some(-999)
    ensures ParseTenths(Ascii("1.23")).None?
    ensures ParseTenths(Ascii("abc")).None?
    ensures ParseTenths(Ascii("12")).None?
    ensures ParseTenths(Ascii("-.5")).None?
    ensures ParseTenths(Ascii("--1.0")).None?
    ensures ParseTenths(Ascii("-")).None?
  {
    assert Unsigned(Ascii("-.5")) == Ascii(".5");
    assert Unsigned(Ascii("--1.0")) == Ascii("-1.0");
  }
}
