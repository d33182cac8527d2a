/** Character classes, trimming and decimal numerals shared by the other modules. */
module Text {

  predicate IsDigit(c: char) { '0' <= c <= '9' }

  predicate AllDigits(s: string) { forall i :: 0 <= i < |s| ==> IsDigit(s[i]) }

  function DigitValue(c: char): (v: int)
    requires IsDigit(c)
  {
    c as int - '0' as int
  }

  function DigitChar(d: int): char
    requires 0 <= d < 10
  {
    (d + '0' as int) as char
  }

  /** The decimal numeral Rust prints for an unsigned integer. */
  function Decimal(n: nat): string
  {
    if n < 10 then [DigitChar(n)] else Decimal(n / 10) + [DigitChar(n % 10)]
  }

  /** The value of a digit string, leading zeros allowed. */
  function Value(s: string): nat
    requires AllDigits(s)
  {
    if s == [] then 0 else 10 * Value(s[..|s| - 1]) + DigitValue(s[|s| - 1])
  }

  lemma {:induction false} DecimalRoundTrip(n: nat)
    ensures Decimal(n) != [] && AllDigits(Decimal(n)) && Value(Decimal(n)) == n
  {
    var s := Decimal(n);
    if n < 10 {
      assert s[..0] == [];
    } else {
      DecimalRoundTrip(n / 10);
      assert s[..|s| - 1] == Decimal(n / 10);
    }
  }

  predicate AreZeros(zeros: string) { forall i :: 0 <= i < |zeros| ==> zeros[i] == '0' }

  lemma {:induction false} ZerosAreNothing(zeros: string, digits: string)
    requires AreZeros(zeros) && AllDigits(digits)
    ensures AllDigits(zeros + digits) && Value(zeros + digits) == Value(digits)
    decreases |digits|, |zeros|
  {
    if digits == [] {
      assert zeros + digits == zeros;
      if zeros != [] {
        var n := |zeros| - 1;
        ZerosAreNothing(zeros[..n], []);
        assert zeros[..n] + [] == zeros[..n];
      }
    } else {
      var n := |digits| - 1;
      ZerosAreNothing(zeros, digits[..n]);
      assert (zeros + digits)[..|zeros + digits| - 1] == zeros + digits[..n];
    }
  }

  /** Every digit string is zeros and a printed number. */
  lemma {:induction false} DigitsArePrinted(digits: string) returns (zeros: string)
    requires digits != [] && AllDigits(digits)
    ensures AreZeros(zeros) && digits == zeros + Decimal(Value(digits))
  {
    hide Decimal;
    var n := |digits| - 1;
    var front, digit := digits[..n], DigitValue(digits[n]);
    assert digits == front + [DigitChar(digit)];
    DigitIsPrinted(digit);
    if front == [] {
      zeros := [];
    } else {
      var before := DigitsArePrinted(front);
      if Value(front) == 0 {
        DigitIsPrinted(0);
        zeros := before + "0";
      } else {
        zeros := before;
        PrintedGoesOn(Value(front), digit);
      }
    }
  }

  lemma DigitIsPrinted(digit: nat)
    requires digit < 10
    ensures Decimal(digit) == [DigitChar(digit)]
  {
  }

  lemma PrintedGoesOn(n: nat, digit: nat)
    requires n > 0 && digit < 10
    ensures Decimal(10 * n + digit) == Decimal(n) + [DigitChar(digit)]
  {
    assert (10 * n + digit) / 10 == n && (10 * n + digit) % 10 == digit;
  }

  /** Unicode White_Space, the class Rust's char::is_whitespace tests. */
  predicate IsWhitespace(c: char)
  {
    var u := c as int;
    0x09 <= u <= 0x0D || u == 0x20 || u == 0x85 || u == 0xA0 || u == 0x1680 ||
    0x2000 <= u <= 0x200A || u == 0x2028 || u == 0x2029 || u == 0x202F || u == 0x205F || u == 0x3000
  }

  lemma ClassesAre(c: char)
    ensures IsDigit(c) <==> c in "0123456789"
    ensures IsWhitespace(c) <==>
            c as int in {
              0x09, 0x0A, 0x0B, 0x0C, 0x0D, 0x20, 0x85, 0xA0, 0x1680, 0x2000, 0x2001, 0x2002, 0x2003, 0x2004, 0x2005,
              0x2006, 0x2007, 0x2008, 0x2009, 0x200A, 0x2028, 0x2029, 0x202F, 0x205F, 0x3000}
  {
  }

  function TrimStart(s: string): string
  {
    if s != [] && IsWhitespace(s[0]) then TrimStart(s[1..]) else s
  }

  function TrimEnd(s: string): string
  {
    if s != [] && IsWhitespace(s[|s| - 1]) then TrimEnd(s[..|s| - 1]) else s
  }

  /** Rust's str::trim. */
  function Trim(s: string): string { TrimEnd(TrimStart(s)) }

  predicate IsBlank(s: string) { forall i :: 0 <= i < |s| ==> IsWhitespace(s[i]) }

  /** No whitespace at either end. */
  predicate IsTight(s: string) { s != [] ==> !IsWhitespace(s[0]) && !IsWhitespace(s[|s| - 1]) }

  lemma {:induction false} TrimStartIs(blank: string, s: string)
    requires IsBlank(blank) && (s != [] ==> !IsWhitespace(s[0]))
    ensures TrimStart(blank + s) == s
  {
    if blank == [] {
      assert blank + s == s;
    } else {
      assert (blank + s)[1..] == blank[1..] + s;
      TrimStartIs(blank[1..], s);
    }
  }

  lemma {:induction false} TrimEndIs(s: string, blank: string)
    requires IsBlank(blank) && (s != [] ==> !IsWhitespace(s[|s| - 1]))
    ensures TrimEnd(s + blank) == s
  {
    if blank == [] {
      assert s + blank == s;
    } else {
      var n := |blank| - 1;
      assert (s + blank)[..|s + blank| - 1] == s + blank[..n];
      TrimEndIs(s, blank[..n]);
    }
  }

  /** Trimming takes exactly the whitespace around a text. */
  lemma TrimIs(before: string, s: string, behind: string)
    requires IsBlank(before) && IsTight(s) && IsBlank(behind)
    ensures Trim(before + s + behind) == s
  {
    hide IsWhitespace;
    if s == [] {
      var all := before + behind;
      assert before + s + behind == all && all + [] == all;
      assert IsBlank(all);
      TrimStartIs(all, []);
    } else {
      assert before + s + behind == before + (s + behind) && (s + behind)[0] == s[0];
      TrimStartIs(before, s + behind);
      TrimEndIs(s, behind);
    }
  }

  lemma {:induction false} TrimStartSplits(s: string) returns (blank: string)
    ensures IsBlank(blank) && s == blank + TrimStart(s)
    ensures TrimStart(s) != [] ==> !IsWhitespace(TrimStart(s)[0])
  {
    hide IsWhitespace;
    blank := [];
    if s != [] && IsWhitespace(s[0]) {
      var rest := TrimStartSplits(s[1..]);
      blank := [s[0]] + rest;
      assert s == [s[0]] + s[1..];
    }
  }

  lemma {:induction false} TrimEndSplits(s: string) returns (blank: string)
    ensures IsBlank(blank) && s == TrimEnd(s) + blank
    ensures TrimEnd(s) != [] ==> !IsWhitespace(TrimEnd(s)[|TrimEnd(s)| - 1])
  {
    hide IsWhitespace;
    blank := [];
    if s != [] && IsWhitespace(s[|s| - 1]) {
      var n := |s| - 1;
      var rest := TrimEndSplits(s[..n]);
      blank := rest + [s[n]];
      assert s == s[..n] + [s[n]];
    }
  }

  /** Every text is blanks, what trimming leaves, and blanks. */
  lemma TrimSplits(s: string) returns (before: string, behind: string)
    ensures IsBlank(before) && IsBlank(behind) && IsTight(Trim(s)) && s == before + Trim(s) + behind
  {
    hide IsWhitespace;
    before := TrimStartSplits(s);
    behind := TrimEndSplits(TrimStart(s));
    assert TrimStart(s) == Trim(s) + behind;
    if Trim(s) != [] {
      assert TrimStart(s)[0] == Trim(s)[0];
    }
  }
}
