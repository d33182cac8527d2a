/**
 The hand-written scanners of the quick filter: comma lists with `\` escapes, and numeric literals.
 */
module FilterText {
  import opened Text

  // ----- comma lists

  /** The items of a list read on from `value`, with `current` the item begun so far. */
  function SplitFrom(value: string, current: string, escaped: bool): (items: seq<string>)
    ensures items != []
  {
    if value == [] then [current]
    else if escaped then SplitFrom(value[1..], current + [value[0]], false)
    else if value[0] == '\\' then SplitFrom(value[1..], current, true)
    else if value[0] == ',' then [current] + SplitFrom(value[1..], "", false)
    else SplitFrom(value[1..], current + [value[0]], false)
  }

  function SplitList(value: string): seq<string> { SplitFrom(value, "", false) }

  method SplitFilterList(value: string) returns (items: seq<string>)
    ensures items == SplitList(value)
  {
    items := [];
    var current, escaped := "", false;
    for i := 0 to |value|
      invariant items + SplitFrom(value[i..], current, escaped) == SplitList(value)
    {
      assert value[i..][0] == value[i] && value[i..][1..] == value[i + 1..];
      var c := value[i];
      if escaped {
        current, escaped := current + [c], false;
      } else if c == '\\' {
        escaped := true;
      } else if c == ',' {
        assert items + ([current] + SplitFrom(value[i + 1..], "", false))
            == items + [current] + SplitFrom(value[i + 1..], "", false);
        items, current := items + [current], "";
      } else {
        current := current + [c];
      }
    }
    items := items + [current];
  }

  /** A character of an item, as it stands in the list: by itself, or behind a `\`. */
  datatype Mark = Plain(letter: char) | Escaped(letter: char)

  predicate AreMarks(marks: seq<Mark>)
  {
    forall i :: 0 <= i < |marks| ==> marks[i].Plain? ==> marks[i].letter != ',' && marks[i].letter != '\\'
  }

  function Written(marks: seq<Mark>): string
  {
    if marks == [] then []
    else (if marks[0].Plain? then [marks[0].letter] else ['\\', marks[0].letter]) + Written(marks[1..])
  }

  function Shown(marks: seq<Mark>): string { seq(|marks|, i requires 0 <= i < |marks| => marks[i].letter) }

  function WrittenList(items: seq<seq<Mark>>): string
    requires items != []
  {
    if |items| == 1 then Written(items[0]) else Written(items[0]) + "," + WrittenList(items[1..])
  }

  function ShownList(items: seq<seq<Mark>>): seq<string>
  {
    seq(|items|, i requires 0 <= i < |items| => Shown(items[i]))
  }

  lemma MarkIsRead(mark: Mark, tail: string, current: string)
    requires AreMarks([mark])
    ensures SplitFrom((if mark.Plain? then [mark.letter] else ['\\', mark.letter]) + tail, current, false) ==
            SplitFrom(tail, current + [mark.letter], false)
  {
    assert [mark][0] == mark;
    var c := mark.letter;
    assert ([c] + tail)[1..] == tail;
    assert ['\\', c] + tail == ['\\'] + ([c] + tail) && (['\\'] + ([c] + tail))[1..] == [c] + tail;
  }

  lemma {:induction false} MarksAreRead(marks: seq<Mark>, tail: string, current: string)
    requires AreMarks(marks)
    ensures SplitFrom(Written(marks) + tail, current, false) == SplitFrom(tail, current + Shown(marks), false)
  {
    hide SplitFrom;
    if marks == [] {
      assert Written(marks) + tail == tail && current + Shown(marks) == current;
    } else {
      var mark := marks[0];
      var first := if mark.Plain? then [mark.letter] else ['\\', mark.letter];
      assert Written(marks) + tail == first + (Written(marks[1..]) + tail);
      MarkIsRead(mark, Written(marks[1..]) + tail, current);
      MarksAreRead(marks[1..], tail, current + [mark.letter]);
      assert current + [mark.letter] + Shown(marks[1..]) == current + Shown(marks);
    }
  }

  lemma SplitComma(tail: string, current: string)
    ensures SplitFrom("," + tail, current, false) == [current] + SplitFrom(tail, "", false)
  {
    assert ("," + tail)[1..] == tail;
  }

  /** The items of a list are what its marks show; a lone `\` at the end shows nothing. */
  lemma {:induction false} ListIsRead(items: seq<seq<Mark>>, dangling: bool)
    requires items != [] && forall i :: 0 <= i < |items| ==> AreMarks(items[i])
    ensures SplitList(WrittenList(items) + if dangling then "\\" else "") == ShownList(items)
  {
    hide SplitFrom, Written, Shown;
    var end := if dangling then "\\" else "";
    assert "" + Shown(items[0]) == Shown(items[0]);
    if |items| == 1 {
      MarksAreRead(items[0], end, "");
      SplitEnds(Shown(items[0]), dangling);
    } else {
      var rest := WrittenList(items[1..]) + end;
      assert WrittenList(items) + end == Written(items[0]) + ("," + rest);
      MarksAreRead(items[0], "," + rest, "");
      SplitComma(rest, Shown(items[0]));
      ListIsRead(items[1..], dangling);
      assert ShownList(items) == [Shown(items[0])] + ShownList(items[1..]);
    }
  }

  lemma SplitEnds(current: string, dangling: bool)
    ensures SplitFrom(if dangling then "\\" else "", current, false) == [current]
  {
    assert "\\"[1..] == "";
  }

  /** Every text is the marks of some items. */
  lemma {:induction false} EveryListIsWritten(value: string) returns (items: seq<seq<Mark>>, dangling: bool)
    ensures items != [] && forall i :: 0 <= i < |items| ==> AreMarks(items[i])
    ensures value == WrittenList(items) + if dangling then "\\" else ""
    decreases |value|
  {
    if value == [] || value == "\\" {
      items, dangling := [[]], value != [];
    } else {
      var width := if value[0] == '\\' then 2 else 1;
      var more, end := EveryListIsWritten(value[width..]);
      assert value == value[..width] + value[width..];
      if value[0] == ',' {
        items, dangling := [[]] + more, end;
        assert items[1..] == more;
      } else {
        var mark := if width == 1 then Plain(value[0]) else Escaped(value[1]);
        items := WithMark(mark, more);
        dangling := end;
      }
    }
  }

  lemma WithMark(mark: Mark, items: seq<seq<Mark>>) returns (more: seq<seq<Mark>>)
    requires items != [] && AreMarks([mark]) && forall i :: 0 <= i < |items| ==> AreMarks(items[i])
    ensures more != [] && forall i :: 0 <= i < |more| ==> AreMarks(more[i])
    ensures WrittenList(more) == (if mark.Plain? then [mark.letter] else ['\\', mark.letter]) + WrittenList(items)
  {
    assert [mark][0] == mark;
    more := [[mark] + items[0]] + items[1..];
    assert ([mark] + items[0])[1..] == items[0] && more[1..] == items[1..];
  }

  /** An item as a user has to write it in a list. */
  function EscapeItem(item: string): string
  {
    if item == [] then []
    else (if item[0] == '\\' || item[0] == ',' then ['\\', item[0]] else [item[0]]) + EscapeItem(item[1..])
  }

  function JoinItems(items: seq<string>): string
    requires items != []
  {
    if |items| == 1 then EscapeItem(items[0]) else EscapeItem(items[0]) + "," + JoinItems(items[1..])
  }

  lemma {:induction false} EscapedItemIsWritten(item: string) returns (marks: seq<Mark>)
    ensures AreMarks(marks) && Written(marks) == EscapeItem(item) && Shown(marks) == item
  {
    marks := [];
    if item != [] {
      var rest := EscapedItemIsWritten(item[1..]);
      marks := [if item[0] == '\\' || item[0] == ',' then Escaped(item[0]) else Plain(item[0])] + rest;
      assert marks[1..] == rest;
      assert Shown(marks) == [item[0]] + Shown(rest);
    }
  }

  lemma {:induction false} JoinedItemsAreWritten(items: seq<string>) returns (marked: seq<seq<Mark>>)
    requires items != []
    ensures |marked| == |items| && forall i :: 0 <= i < |marked| ==> AreMarks(marked[i])
    ensures WrittenList(marked) == JoinItems(items) && ShownList(marked) == items
  {
    hide Written, Shown, EscapeItem, AreMarks;
    var marks := EscapedItemIsWritten(items[0]);
    marked := [marks];
    if |items| > 1 {
      var rest := JoinedItemsAreWritten(items[1..]);
      marked := [marks] + rest;
      assert marked[1..] == rest;
      assert ShownList(marked) == [Shown(marks)] + ShownList(rest);
    }
  }

  /** Splitting inverts joining with commas after escaping `\` and `,`. */
  lemma SplitInvertsJoin(items: seq<string>)
    requires items != []
    ensures SplitList(JoinItems(items)) == items
  {
    hide SplitFrom, JoinItems, WrittenList;
    var marked := JoinedItemsAreWritten(items);
    ListIsRead(marked, false);
    assert JoinItems(items) + "" == JoinItems(items);
  }

  // ----- numeric literals

  predicate IsSign(c: char) { c == '+' || c == '-' }

  predicate IsExponentMark(c: char) { c == 'e' || c == 'E' }

  function StripSign(s: string): string { if s != [] && IsSign(s[0]) then s[1..] else s }

  /** The index of the first exponent mark, or the length. */
  function FindExponent(s: string): (k: nat)
    ensures k <= |s|
    ensures forall i :: 0 <= i < k ==> !IsExponentMark(s[i])
    ensures k < |s| ==> IsExponentMark(s[k])
  {
    if s == [] || IsExponentMark(s[0]) then 0
    else
      var k := FindExponent(s[1..]);
      assert forall i :: 1 <= i < k + 1 ==> s[i] == s[1..][i - 1];
      k + 1
  }

  function FindPoint(s: string): (k: nat)
    ensures k <= |s|
    ensures forall i :: 0 <= i < k ==> s[i] != '.'
    ensures k < |s| ==> s[k] == '.'
  {
    if s == [] || s[0] == '.' then 0
    else
      var k := FindPoint(s[1..]);
      assert forall i :: 1 <= i < k + 1 ==> s[i] == s[1..][i - 1];
      k + 1
  }

  predicate IsValidMantissa(mantissa: string)
  {
    var k := FindPoint(mantissa);
    var integer := mantissa[..k];
    if k < |mantissa| then
      var fraction := mantissa[k + 1..];
      AllDigits(integer) && AllDigits(fraction) && (integer != [] || fraction != [])
    else
      AllDigits(integer) && integer != []
  }

  predicate IsValidExponent(e: string)
  {
    e == [] || (StripSign(e[1..]) != [] && AllDigits(StripSign(e[1..])))
  }

  predicate IsNumericLiteral(value: string)
  {
    var rest := StripSign(value);
    var k := FindExponent(rest);
    var mantissa, exponent := rest[..k], rest[k..];
    && IsValidMantissa(mantissa)
    && IsValidExponent(exponent)
  }

  /** `digits[.digits*] | .digits` */
  ghost predicate MantissaGrammar(m: string)
  {
    || (m != [] && AllDigits(m))
    || (exists a, b :: AllDigits(a) && a != [] && AllDigits(b) && m == a + "." + b)
    || (exists b :: AllDigits(b) && b != [] && m == "." + b)
  }

  predicate SignGrammar(s: string) { s == "" || s == "+" || s == "-" }

  /** `([eE][+-]?digits)?` */
  ghost predicate ExponentGrammar(e: string)
  {
    || e == ""
    || (exists c, sign, digits ::
          (c == 'e' || c == 'E') && SignGrammar(sign) && AllDigits(digits) && digits != [] &&
          e == [c] + sign + digits)
  }

  ghost predicate NumericGrammar(value: string)
  {
    exists sign, m, e :: SignGrammar(sign) && MantissaGrammar(m) && ExponentGrammar(e) && value == sign + m + e
  }

  lemma MantissaMeetsGrammar(m: string)
    ensures IsValidMantissa(m) <==> MantissaGrammar(m)
  {
    var k := FindPoint(m);
    if IsValidMantissa(m) && k < |m| {
      var a, b := m[..k], m[k + 1..];
      assert m == a + "." + b;
      if a == [] {
        assert m == "." + b;
      }
    }
    if IsValidMantissa(m) && k == |m| {
      assert m[..k] == m;
    }
    if m != [] && AllDigits(m) {
      assert m[..k] == m;
    }
    if a, b :| AllDigits(a) && AllDigits(b) && (a != [] || b != []) && m == a + "." + b {
      assert m[|a|] == '.';
      assert k == |a|;
      assert m[..k] == a && m[k + 1..] == b;
    }
    if b :| AllDigits(b) && b != [] && m == "." + b {
      assert m == [] + "." + b;
      assert m[0] == '.';
      assert m[1..] == b;
    }
  }

  lemma SignStrips(sign: string, digits: string)
    requires SignGrammar(sign) && digits != [] && !IsSign(digits[0])
    ensures StripSign(sign + digits) == digits
  {
    assert (sign + digits)[|sign|..] == digits;
  }

  function SignOf(s: string): (sign: string)
    ensures SignGrammar(sign) && s == sign + StripSign(s)
  {
    if s != [] && s[0] == '+' then "+" else if s != [] && s[0] == '-' then "-" else ""
  }

  lemma ExponentMeetsGrammar(e: string)
    requires e == [] || IsExponentMark(e[0])
    ensures IsValidExponent(e) <==> ExponentGrammar(e)
  {
    if e != [] {
      var digits := StripSign(e[1..]);
      if digits != [] && AllDigits(digits) {
        assert e == [e[0]] + SignOf(e[1..]) + digits;
      }
      if c, sign, d :| (c == 'e' || c == 'E') && SignGrammar(sign) && AllDigits(d) && d != [] && e == [c] + sign + d {
        assert e[1..] == sign + d;
        SignStrips(sign, d);
      }
    }
  }

  lemma MantissaHasNoMark(m: string)
    requires MantissaGrammar(m)
    ensures m != [] && !IsSign(m[0]) && forall i :: 0 <= i < |m| ==> IsDigit(m[i]) || m[i] == '.'
  {
  }

  lemma ExponentStarts(e: string)
    requires ExponentGrammar(e)
    ensures e == [] || IsExponentMark(e[0])
  {
  }

  lemma PartsAreFound(sign: string, m: string, e: string)
    requires SignGrammar(sign) && MantissaGrammar(m) && ExponentGrammar(e)
    ensures StripSign(sign + m + e) == m + e && FindExponent(m + e) == |m|
  {
    hide ExponentGrammar, MantissaGrammar, SignGrammar, StripSign, FindExponent;
    MantissaHasNoMark(m);
    ExponentStarts(e);
    assert (m + e)[0] == m[0];
    SignStrips(sign, m + e);
    assert sign + m + e == sign + (m + e);
    MarkIsFound(m, e);
  }

  lemma MarkIsFound(m: string, e: string)
    requires forall i :: 0 <= i < |m| ==> IsDigit(m[i]) || m[i] == '.'
    requires e == [] || IsExponentMark(e[0])
    ensures FindExponent(m + e) == |m|
  {
    var s := m + e;
    assert forall i :: 0 <= i < |m| ==> s[i] == m[i];
    assert e != [] ==> s[|m|] == e[0];
  }

  /** The scanner accepts exactly `[+-]?(digits[.digits*] | .digits)([eE][+-]?digits)?`. */
  lemma NumericLiteralMeetsGrammar(value: string)
    ensures IsNumericLiteral(value) <==> NumericGrammar(value)
  {
    hide MantissaGrammar, ExponentGrammar, IsValidMantissa, IsValidExponent, StripSign;
    var rest := StripSign(value);
    var k := FindExponent(rest);
    MantissaMeetsGrammar(rest[..k]);
    ExponentMeetsGrammar(rest[k..]);
    if IsNumericLiteral(value) {
      assert value == SignOf(value) + rest[..k] + rest[k..];
    }
    if NumericGrammar(value) {
      var sign, m, e :| SignGrammar(sign) && MantissaGrammar(m) && ExponentGrammar(e) && value == sign + m + e;
      PartsAreFound(sign, m, e);
      assert (m + e)[..|m|] == m && (m + e)[|m|..] == e;
    }
  }
}
