/** The numbers that numerals denote (MySQL 8.4 Reference Manual, section 11.1.2 "Numeric Literals"). */
module Numerals {
  import opened FilterText
  import opened Text

  /** A numeral's number; a text that is no numeral stands for itself. */
  datatype Number = Exact(value: real) | Other(text: string)

  function Power(n: nat): (power: real)
    ensures power > 0.0
  {
    if n == 0 then 1.0 else 10.0 * Power(n - 1)
  }

  function Mantissa(m: string): real
    requires IsValidMantissa(m)
  {
    var k := FindPoint(m);
    var fraction := if k < |m| then m[k + 1..] else [];
    Value(m[..k]) as real + Value(fraction) as real / Power(|fraction|)
  }

  /** The factor of an exponent with its mark. */
  function Scale(e: string): real
    requires IsValidExponent(e)
  {
    if e == [] then 1.0
    else
      var power := Power(Value(StripSign(e[1..])));
      if e[1] == '-' then 1.0 / power else power
  }

  function NumeralValue(text: string): real
    requires IsNumericLiteral(text)
  {
    var rest := StripSign(text);
    var k := FindExponent(rest);
    var size := Mantissa(rest[..k]) * Scale(rest[k..]);
    if text[0] == '-' then -size else size
  }

  function NumberOf(text: string): Number
  {
    if IsNumericLiteral(text) then Exact(NumeralValue(text)) else Other(text)
  }

  /** A digit is the number it names. */
  lemma DigitIsNumber(c: char)
    requires IsDigit(c)
    ensures NumberOf([c]) == Exact((c as int - '0' as int) as real)
  {
    assert [c][1..] == [] && [c][..1] == [c] && [c][..0] == [];
    assert Value([c]) == DigitValue(c) && Value([]) == 0;
    assert FindExponent([c]) == 1 && FindPoint([c]) == 1;
  }
}
