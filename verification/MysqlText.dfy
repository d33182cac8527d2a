/**
 Quoted MySQL text: how the program writes it, and a reference reader for it.

 The reader follows the MySQL 8.4 Reference Manual, sections 11.1.1 "String Literals" and 11.2
 "Schema Object Names".
 */
module MysqlText {
  import opened Wrappers

  // ----- writing

  /** Every occurrence of `c` written twice. */
  function Doubled(s: string, c: char): string
  {
    if s == [] then [] else (if s[0] == c then [c, c] else [s[0]]) + Doubled(s[1..], c)
  }

  function QuoteIdentifier(name: string): string { "`" + Doubled(name, '`') + "`" }

  function MysqlStringLiteral(value: string): string { "'" + LiteralBody(value) + "'" }

  function LiteralBody(value: string): string { Doubled(Doubled(value, '\\'), '\'') }

  // ----- reading

  /** The text a quoted token stands for and the number of characters read, closing quote included. */
  datatype Quoted = Quoted(text: string, length: nat)

  function Prepend(head: string, width: nat, rest: Option<Quoted>): Option<Quoted>
  {
    match rest
    case None => None
    case Some(q) => Some(Quoted(head + q.text, width + q.length))
  }

  /** What a backslash and `c` stand for in a string literal. */
  function Unescape(c: char): string
  {
    match c
    case '0' => [0 as char]
    case 'b' => [8 as char]
    case 'n' => "\n"
    case 'r' => "\r"
    case 't' => "\t"
    case 'Z' => [26 as char]
    case '%' => "\\%"
    case '_' => "\\_"
    case _ => [c]
  }

  /** Reads on from behind the opening quote; `escapes` says whether a backslash is special. */
  function ReadBody(s: string, quote: char, escapes: bool): Option<Quoted>
    decreases |s|
  {
    if s == [] then None
    else if escapes && s[0] == '\\' then
      if |s| < 2 then None else Prepend(Unescape(s[1]), 2, ReadBody(s[2..], quote, escapes))
    else if s[0] == quote then
      if |s| > 1 && s[1] == quote then Prepend([quote], 2, ReadBody(s[2..], quote, escapes))
      else Some(Quoted("", 1))
    else Prepend([s[0]], 1, ReadBody(s[1..], quote, escapes))
  }

  /** Reads one quoted token from the start of `s`. */
  function ReadQuoted(s: string, escapes: bool): Option<Quoted>
    requires s != []
  {
    Prepend("", 1, ReadBody(s[1..], s[0], escapes))
  }

  // ----- what was written is what is read

  lemma ReadsPlain(c: char, tail: string, quote: char, escapes: bool)
    requires c != quote && !(escapes && c == '\\')
    ensures ReadBody([c] + tail, quote, escapes) == Prepend([c], 1, ReadBody(tail, quote, escapes))
  {
    assert ([c] + tail)[1..] == tail;
  }

  lemma ReadsDoubledQuote(tail: string, quote: char, escapes: bool)
    requires !(escapes && quote == '\\')
    ensures ReadBody([quote, quote] + tail, quote, escapes) == Prepend([quote], 2, ReadBody(tail, quote, escapes))
  {
    assert ([quote, quote] + tail)[2..] == tail;
  }

  lemma ReadsEscape(c: char, tail: string, quote: char)
    ensures ReadBody(['\\', c] + tail, quote, true) == Prepend(Unescape(c), 2, ReadBody(tail, quote, true))
  {
    assert (['\\', c] + tail)[2..] == tail;
  }

  lemma ReadsTwoBackslashes(tail: string)
    ensures ReadBody(['\\', '\\'] + tail, '\'', false) == Prepend(['\\', '\\'], 2, ReadBody(tail, '\'', false))
  {
    hide ReadBody;
    ReadsPlain('\\', ['\\'] + tail, '\'', false);
    ReadsPlain('\\', tail, '\'', false);
    assert ['\\'] + (['\\'] + tail) == ['\\', '\\'] + tail;
    if ReadBody(tail, '\'', false).Some? {
      var text := ReadBody(tail, '\'', false).value.text;
      assert ['\\'] + (['\\'] + text) == ['\\', '\\'] + text;
    }
  }

  lemma ReadsClose(rest: string, quote: char, escapes: bool)
    requires !(escapes && quote == '\\') && (rest == [] || rest[0] != quote)
    ensures ReadBody([quote] + rest, quote, escapes) == Some(Quoted("", 1))
  {
  }

  lemma {:induction false} IdentifierBodyReads(name: string, rest: string)
    requires rest == [] || rest[0] != '`'
    ensures ReadBody(Doubled(name, '`') + "`" + rest, '`', false) == Some(Quoted(name, |Doubled(name, '`')| + 1))
  {
    hide ReadBody;
    if name == [] {
      ReadsClose(rest, '`', false);
      assert Doubled(name, '`') + "`" + rest == ['`'] + rest;
    } else {
      hide Doubled;
      DoubledPrepend(name[0], name[1..], '`');
      var tail := Doubled(name[1..], '`') + "`" + rest;
      IdentifierBodyReads(name[1..], rest);
      assert [name[0]] + name[1..] == name;
      if name[0] == '`' {
        ReadsDoubledQuote(tail, '`', false);
        assert Doubled(name, '`') + "`" + rest == ['`', '`'] + tail;
      } else {
        ReadsPlain(name[0], tail, '`', false);
        assert Doubled(name, '`') + "`" + rest == [name[0]] + tail;
      }
    }
  }

  /** A quoted identifier reads back as the name, and ends where it was written to end. */
  lemma IdentifierRoundTrip(name: string, rest: string)
    requires rest == [] || rest[0] != '`'
    ensures ReadQuoted(QuoteIdentifier(name) + rest, false) == Some(Quoted(name, |QuoteIdentifier(name)|))
  {
    hide ReadBody, Doubled;
    IdentifierBodyReads(name, rest);
    var s := QuoteIdentifier(name) + rest;
    assert s[1..] == Doubled(name, '`') + "`" + rest;
    assert "" + name == name;
  }

  lemma LiteralBodyStep(value: string)
    requires value != []
    ensures LiteralBody(value) == LiteralChar(value[0]) + LiteralBody(value[1..])
  {
    hide Doubled;
    var c, inner := value[0], Doubled(value[1..], '\\');
    assert value == [c] + value[1..];
    DoubledPrepend(c, value[1..], '\\');
    if c == '\\' {
      assert ['\\', '\\'] + inner == ['\\'] + (['\\'] + inner);
      DoubledPrepend('\\', ['\\'] + inner, '\'');
      DoubledPrepend('\\', inner, '\'');
      assert ['\\'] + (['\\'] + Doubled(inner, '\'')) == "\\\\" + Doubled(inner, '\'');
    } else {
      DoubledPrepend(c, inner, '\'');
    }
  }

  lemma DoubledPrepend(first: char, rest: string, c: char)
    ensures Doubled([first] + rest, c) == (if first == c then [c, c] else [first]) + Doubled(rest, c)
  {
    assert ([first] + rest)[1..] == rest;
  }

  function LiteralChar(c: char): string
  {
    if c == '\\' then "\\\\" else if c == '\'' then "''" else [c]
  }

  /** The text one written character reads back as. */
  function ReadChar(c: char, escapes: bool): string { if c == '\\' && !escapes then ['\\', '\\'] else [c] }

  lemma ReadsLiteralChar(c: char, tail: string, escapes: bool)
    ensures ReadBody(LiteralChar(c) + tail, '\'', escapes) ==
            Prepend(ReadChar(c, escapes), |LiteralChar(c)|, ReadBody(tail, '\'', escapes))
  {
    hide ReadBody;
    if c == '\\' {
      if escapes {
        ReadsEscape('\\', tail, '\'');
      } else {
        ReadsTwoBackslashes(tail);
      }
    } else if c == '\'' {
      ReadsDoubledQuote(tail, '\'', escapes);
    } else {
      ReadsPlain(c, tail, '\'', escapes);
    }
  }

  /** What the written literal reads back as in either mode. */
  function ReadBack(value: string, escapes: bool): string { if escapes then value else Doubled(value, '\\') }

  lemma ReadBackStep(value: string, escapes: bool)
    requires value != []
    ensures ReadBack(value, escapes) == ReadChar(value[0], escapes) + ReadBack(value[1..], escapes)
  {
    assert value == [value[0]] + value[1..];
  }

  lemma ReadsEnd(rest: string, escapes: bool)
    requires rest == [] || rest[0] != '\''
    ensures ReadBody(LiteralBody([]) + "'" + rest, '\'', escapes) == Some(Quoted(ReadBack([], escapes), |LiteralBody([])| + 1))
  {
    ReadsClose(rest, '\'', escapes);
    assert LiteralBody([]) + "'" + rest == ['\''] + rest;
  }

  lemma {:induction false} LiteralBodyReads(value: string, rest: string, escapes: bool)
    requires rest == [] || rest[0] != '\''
    ensures ReadBody(LiteralBody(value) + "'" + rest, '\'', escapes) ==
            Some(Quoted(ReadBack(value, escapes), |LiteralBody(value)| + 1))
  {
    hide ReadBody, LiteralBody, ReadBack, LiteralChar, ReadChar;
    if value == [] {
      ReadsEnd(rest, escapes);
    } else {
      var tail := LiteralBody(value[1..]) + "'" + rest;
      LiteralBodyStep(value);
      ReadBackStep(value, escapes);
      LiteralBodyReads(value[1..], rest, escapes);
      ReadsLiteralChar(value[0], tail, escapes);
      assert LiteralBody(value) + "'" + rest == LiteralChar(value[0]) + tail;
    }
  }

  /** A string literal reads back as the value under backslash escapes, and ends at the same place without them. */
  lemma LiteralRoundTrip(value: string, rest: string)
    requires rest == [] || rest[0] != '\''
    ensures ReadQuoted(MysqlStringLiteral(value) + rest, true) == Some(Quoted(value, |MysqlStringLiteral(value)|))
    ensures ReadQuoted(MysqlStringLiteral(value) + rest, false) ==
            Some(Quoted(Doubled(value, '\\'), |MysqlStringLiteral(value)|))
  {
    hide ReadBody, LiteralBody, Doubled;
    LiteralBodyReads(value, rest, true);
    LiteralBodyReads(value, rest, false);
    var s := MysqlStringLiteral(value) + rest;
    assert s[1..] == LiteralBody(value) + "'" + rest;
    assert "" + value == value && "" + Doubled(value, '\\') == Doubled(value, '\\');
  }

  lemma {:induction false} DoubledLength(s: string, c: char)
    ensures |Doubled(s, c)| >= |s|
    ensures |Doubled(s, c)| == |s| <==> c !in s
    ensures c !in s ==> Doubled(s, c) == s
  {
    if s != [] {
      DoubledLength(s[1..], c);
      assert s == [s[0]] + s[1..];
    }
  }

  /** Under NO_BACKSLASH_ESCAPES the literal means the value exactly when the value has no backslash. */
  lemma LiteralWithoutEscapes(value: string)
    ensures ReadQuoted(MysqlStringLiteral(value), false) == Some(Quoted(value, |MysqlStringLiteral(value)|)) <==>
            '\\' !in value
  {
    LiteralRoundTrip(value, "");
    assert MysqlStringLiteral(value) + "" == MysqlStringLiteral(value);
    DoubledLength(value, '\\');
  }
}
