/** A concrete numeral system for the premises the namespace counter's
    value lemmas rest on: signed integers written in unary ("111" is 3,
    "-11" is -2). It shows that `Akchtc.GeneralReadsBack` and
    `Akchtc.NumeralsAreAttributes` can hold together. */
module Numeral {
  import opened Wrappers
  import opened Ledger
  import Akchtc
  import CompositeKeys

  /** A text made of '1's only. */
  predicate Ones(t: string) {
    forall i :: 0 <= i < |t| ==> t[i] == '1'
  }

  /** Reads "1…1" as its length and "-1…1" as minus the number of '1's;
      every other text is not a number. */
  function ReadInt(t: string): Option<int> {
    if Ones(t) then Some(|t|)
    else if |t| > 0 && t[0] == '-' && Ones(t[1..]) then Some(-(|t| - 1))
    else None
  }

  function Read(t: string): Option<real> {
    match ReadInt(t)
    case Some(n) => Some(n as real)
    case None => None
  }

  /** Writes an integer in unary. */
  function WriteInt(n: int): string {
    if n >= 0 then seq(n, _ => '1') else "-" + seq(-n, _ => '1')
  }

  /** Writes the integer part of a number in unary. */
  function Write(x: real): string {
    WriteInt(x.Floor)
  }

  function Unary(): Numerals {
    Numerals(Read, Write, Write, Write)
  }

  /** Every integer reads back from its text. */
  lemma WriteReadsBack(n: int)
    ensures ReadInt(WriteInt(n)) == Some(n)
  {
    if n < 0 {
      var t := WriteInt(n);
      assert t[1..] == seq(-n, _ => '1');
      assert !Ones(t) by { assert t[0] == '-'; }
    }
  }

  /** Every integer, as a number, reads back from its text. */
  lemma IntegerReadsBack(n: int)
    ensures Read(Write(n as real)) == Some(n as real)
  {
    assert (n as real).Floor == n;
    WriteReadsBack(n);
  }

  /** Every number the unary system reads is an integer. */
  lemma ParsedIsInteger(x: real) returns (n: int)
    requires Akchtc.Parsed(Unary(), x)
    ensures x == n as real
  {
    var t :| Unary().parse(t) == Some(x);
    assert Read(t) == Some(x);
    n := ReadInt(t).value;
  }

  /** Sums and differences of numbers read from text read back. */
  lemma ClosedUnderSum(x: real, y: real)
    requires Akchtc.Parsed(Unary(), x) && Akchtc.Parsed(Unary(), y)
    ensures Read(Write(x + y)) == Some(x + y) && Read(Write(x - y)) == Some(x - y)
  {
    var a := ParsedIsInteger(x);
    var b := ParsedIsInteger(y);
    assert x + y == (a + b) as real && x - y == (a - b) as real;
    IntegerReadsBack(a + b);
    IntegerReadsBack(a - b);
  }

  /** A text the unary system reads holds only '1' and '-'. */
  lemma ReadTextIsAttribute(text: string)
    requires ReadInt(text).Some?
    ensures CompositeKeys.ValidAttribute(text)
  {
    if !Ones(text) {
      assert text[0] == '-' && Ones(text[1..]);
      forall i | 1 <= i < |text| ensures text[i] == '1' {
        assert text[i] == text[1..][i - 1];
      }
    }
  }

  /** The unary system meets both premises of the value lemmas. */
  lemma UnaryMeetsPremises()
    ensures Akchtc.GeneralReadsBack(Unary())
    ensures Akchtc.NumeralsAreAttributes(Unary())
  {
    var num := Unary();
    assert num.parse("") == Some(0.0);
    forall x, y | Akchtc.Parsed(num, x) && Akchtc.Parsed(num, y)
      ensures && num.parse(num.general(x + y)) == Some(x + y)
              && num.parse(num.general(x - y)) == Some(x - y)
    {
      ClosedUnderSum(x, y);
    }
    forall text | num.parse(text).Some?
      ensures CompositeKeys.ValidAttribute(text)
    {
      ReadTextIsAttribute(text);
    }
  }
}
