/** The command tokenizer of the Redis console: one line of text becomes a list of byte strings. */
module RedisCommand {
  import opened Wrappers
  import opened Utf8
  import opened Text

  const MAX_COMMAND_BYTES: nat := 1024 * 1024

  datatype CommandError = TooLarge | IncompleteEscape | InvalidHex | UnterminatedQuote | Empty

  type Parsed = Result<seq<Bytes>, CommandError>

  // ----- parsing

  predicate IsQuote(c: char) { c == '\'' || c == '"' }

  function HexDigit(c: char): Option<nat>
  {
    if '0' <= c <= '9' then Some(c as int - '0' as int)
    else if 'a' <= c <= 'f' then Some(c as int - 'a' as int + 10)
    else if 'A' <= c <= 'F' then Some(c as int - 'A' as int + 10)
    else None
  }

  /** Rust's u8::from_str_radix on two characters, which also takes a plus sign and one digit. */
  function HexByte(high: char, low: char): (byte: Option<nat>)
    ensures byte.Some? ==> byte.value < 256
  {
    match HexDigit(low)
    case None => None
    case Some(l) =>
      if high == '+' then Some(l)
      else
        match HexDigit(high)
        case None => None
        case Some(h) => Some(16 * h + l)
  }

  function Unescaped(c: char): char
  {
    match c
    case 'n' => '\n'
    case 'r' => '\r'
    case 't' => '\t'
    case _ => c
  }

  datatype Escape = Escape(bytes: Bytes, width: nat)

  /** The escape at the start of `s`. */
  function EscapeOf(s: string): (escape: Result<Escape, CommandError>)
    requires s != []
    ensures escape.Success? ==> 0 < escape.value.width <= |s|
  {
    if |s| < 2 then Failure(IncompleteEscape)
    else if s[1] == 'x' then
      if |s| < 4 then Failure(InvalidHex)
      else
        match HexByte(s[2], s[3])
        case None => Failure(InvalidHex)
        case Some(b) => Success(Escape([Byte(b)], 4))
    else Success(Escape(EncodeChar(Unescaped(s[1])), 2))
  }

  function Before(argument: Bytes, rest: Parsed): Parsed
  {
    match rest
    case Failure(error) => Failure(error)
    case Success(arguments) => Success([argument] + arguments)
  }

  /** The arguments from here on, with one begun as `argument` when `started`. */
  function ParseFrom(s: string, argument: Bytes, quote: Option<char>, started: bool): Parsed
    decreases |s|
  {
    if s == [] then
      if quote.Some? then Failure(UnterminatedQuote) else Success(if started then [argument] else [])
    else if quote.None? && IsWhitespace(s[0]) then
      if started then Before(argument, ParseFrom(s[1..], [], None, false)) else ParseFrom(s[1..], argument, None, false)
    else if IsQuote(s[0]) then
      if quote == Some(s[0]) then ParseFrom(s[1..], argument, None, started)
      else if quote.None? then ParseFrom(s[1..], argument, Some(s[0]), true)
      else ParseFrom(s[1..], argument + EncodeChar(s[0]), quote, started)
    else if s[0] == '\\' then
      match EscapeOf(s)
      case Failure(error) => Failure(error)
      case Success(escape) => ParseFrom(s[escape.width..], argument + escape.bytes, quote, true)
    else ParseFrom(s[1..], argument + EncodeChar(s[0]), quote, true)
  }

  function Parse(command: string): Parsed
  {
    if |Encode(command)| > MAX_COMMAND_BYTES then Failure(TooLarge)
    else
      match ParseFrom(command, [], None, false)
      case Failure(error) => Failure(error)
      case Success(arguments) => if arguments == [] then Failure(Empty) else Success(arguments)
  }

  function Behind(arguments: seq<Bytes>, rest: Parsed): Parsed
  {
    match rest
    case Failure(error) => Failure(error)
    case Success(more) => Success(arguments + more)
  }

  lemma BehindBefore(arguments: seq<Bytes>, argument: Bytes, rest: Parsed)
    ensures Behind(arguments, Before(argument, rest)) == Behind(arguments + [argument], rest)
  {
    if rest.Success? {
      assert arguments + ([argument] + rest.value) == arguments + [argument] + rest.value;
    }
  }

  lemma BehindNothing(rest: Parsed)
    ensures Behind([], rest) == rest
  {
    if rest.Success? {
      assert [] + rest.value == rest.value;
    }
  }

  method ParseCommand(command: string) returns (parsed: Parsed)
    ensures parsed == Parse(command)
  {
    hide EncodeChar, EscapeOf, Encode;
    if |Encode(command)| > MAX_COMMAND_BYTES {
      return Failure(TooLarge);
    }
    var arguments: seq<Bytes>, argument: Bytes := [], [];
    var quote: Option<char>, started, i := None, false, 0;
    BehindNothing(ParseFrom(command, [], None, false));
    assert command[0..] == command;
    while i < |command|
      invariant i <= |command| && (quote.Some? ==> IsQuote(quote.value))
      invariant ParseFrom(command, [], None, false) == Behind(arguments, ParseFrom(command[i..], argument, quote, started))
    {
      var c := command[i];
      assert command[i..][0] == c && command[i..][1..] == command[i + 1..];
      if quote.None? && IsWhitespace(c) {
        if started {
          BehindBefore(arguments, argument, ParseFrom(command[i + 1..], [], None, false));
          arguments, argument, started := arguments + [argument], [], false;
        }
        i := i + 1;
      } else if IsQuote(c) {
        if quote == Some(c) {
          quote := None;
        } else if quote.None? {
          quote, started := Some(c), true;
        } else {
          argument := argument + EncodeChar(c);
        }
        i := i + 1;
      } else if c == '\\' {
        var escape := EscapeOf(command[i..]);
        if escape.Failure? {
          return Failure(escape.error);
        }
        assert command[i..][escape.value.width..] == command[i + escape.value.width..];
        argument, started, i := argument + escape.value.bytes, true, i + escape.value.width;
      } else {
        argument, started, i := argument + EncodeChar(c), true, i + 1;
      }
    }
    if quote.Some? {
      return Failure(UnterminatedQuote);
    }
    if started {
      arguments := arguments + [argument];
    }
    assert arguments + [] == arguments;
    parsed := if arguments == [] then Failure(Empty) else Success(arguments);
  }

  // ----- printing

  /** One argument as a user may write it; an empty bare or hexadecimal one is written `""`. */
  datatype Written = Bare(text: string) | Quoted(text: string, quote: char) | Hex(bytes: Bytes)

  predicate IsWritable(w: Written)
  {
    match w
    case Bare(_) => true
    case Quoted(_, quote) => IsQuote(quote)
    case Hex(bytes) => forall i :: 0 <= i < |bytes| ==> bytes[i] as int < 256
  }

  function ValueOf(w: Written): Bytes
  {
    match w
    case Bare(text) => Encode(text)
    case Quoted(text, _) => Encode(text)
    case Hex(bytes) => bytes
  }

  predicate NeedsEscape(c: char, quote: Option<char>)
  {
    c == '\\' || (if quote.Some? then c == quote.value else IsWhitespace(c) || IsQuote(c))
  }

  function EscapeText(text: string, quote: Option<char>): string
  {
    if text == [] then []
    else (if NeedsEscape(text[0], quote) then ['\\', text[0]] else [text[0]]) + EscapeText(text[1..], quote)
  }

  function HexChar(d: nat): char
    requires d < 16
  {
    if d < 10 then ('0' as int + d) as char else ('a' as int + d - 10) as char
  }

  function HexEscape(c: char): string
    requires c as int < 256
  {
    ['\\', 'x', HexChar(c as int / 16), HexChar(c as int % 16)]
  }

  function HexText(bytes: Bytes): string
    requires forall i :: 0 <= i < |bytes| ==> bytes[i] as int < 256
  {
    if bytes == [] then [] else HexEscape(bytes[0]) + HexText(bytes[1..])
  }

  function Print(w: Written): string
    requires IsWritable(w)
  {
    match w
    case Bare(text) => if text == [] then "\"\"" else EscapeText(text, None)
    case Quoted(text, quote) => [quote] + EscapeText(text, Some(quote)) + [quote]
    case Hex(bytes) => if bytes == [] then "\"\"" else HexText(bytes)
  }

  function PrintAll(ws: seq<Written>): string
    requires ws != [] && forall i :: 0 <= i < |ws| ==> IsWritable(ws[i])
  {
    if |ws| == 1 then Print(ws[0]) else Print(ws[0]) + " " + PrintAll(ws[1..])
  }

  function ValuesOf(ws: seq<Written>): seq<Bytes>
  {
    if ws == [] then [] else [ValueOf(ws[0])] + ValuesOf(ws[1..])
  }

  // ----- what was printed is what is parsed

  lemma EscapedCharParses(c: char, tail: string, argument: Bytes, quote: Option<char>, started: bool)
    requires quote.Some? ==> IsQuote(quote.value)
    requires quote.Some? ==> started
    ensures ParseFrom((if NeedsEscape(c, quote) then ['\\', c] else [c]) + tail, argument, quote, started) ==
            ParseFrom(tail, argument + EncodeChar(c), quote, true)
  {
    hide EncodeChar, HexByte;
    if NeedsEscape(c, quote) {
      assert (['\\', c] + tail)[2..] == tail;
    } else {
      assert ([c] + tail)[1..] == tail;
    }
  }

  lemma {:induction false} EscapedTextParses(
    text: string, tail: string, argument: Bytes, quote: Option<char>, started: bool)
    requires quote.Some? ==> IsQuote(quote.value)
    requires quote.Some? ==> started
    ensures ParseFrom(EscapeText(text, quote) + tail, argument, quote, started) ==
            ParseFrom(tail, argument + Encode(text), quote, started || text != [])
  {
    hide ParseFrom, EncodeChar, NeedsEscape;
    if text == [] {
      assert EscapeText(text, quote) + tail == tail && argument + Encode(text) == argument;
    } else {
      var written := if NeedsEscape(text[0], quote) then ['\\', text[0]] else [text[0]];
      var rest := EscapeText(text[1..], quote) + tail;
      assert EscapeText(text, quote) + tail == written + rest;
      EscapedCharParses(text[0], rest, argument, quote, started);
      EscapedTextParses(text[1..], tail, argument + EncodeChar(text[0]), quote, true);
      assert argument + EncodeChar(text[0]) + Encode(text[1..]) == argument + Encode(text);
    }
  }

  lemma HexRoundTrip(b: nat)
    requires b < 256
    ensures HexByte(HexChar(b / 16), HexChar(b % 16)) == Some(b)
  {
  }

  lemma HexEscapeParses(c: char, tail: string, argument: Bytes, started: bool)
    requires c as int < 256
    ensures ParseFrom(HexEscape(c) + tail, argument, None, started) == ParseFrom(tail, argument + [c], None, true)
  {
    hide HexByte, HexChar;
    HexRoundTrip(c as int);
    assert (HexEscape(c) + tail)[4..] == tail;
  }

  lemma {:induction false} HexTextParses(bytes: Bytes, tail: string, argument: Bytes, started: bool)
    requires forall i :: 0 <= i < |bytes| ==> bytes[i] as int < 256
    ensures ParseFrom(HexText(bytes) + tail, argument, None, started) ==
            ParseFrom(tail, argument + bytes, None, started || bytes != [])
  {
    hide ParseFrom, HexEscape;
    if bytes == [] {
      assert HexText(bytes) + tail == tail && argument + bytes == argument;
    } else {
      var rest := HexText(bytes[1..]) + tail;
      assert HexText(bytes) + tail == HexEscape(bytes[0]) + rest;
      HexEscapeParses(bytes[0], rest, argument, started);
      HexTextParses(bytes[1..], tail, argument + [bytes[0]], true);
      assert argument + [bytes[0]] + bytes[1..] == argument + bytes;
    }
  }

  lemma QuotedParses(text: string, quote: char, tail: string)
    requires IsQuote(quote)
    ensures ParseFrom([quote] + EscapeText(text, Some(quote)) + [quote] + tail, [], None, false) ==
            ParseFrom(tail, Encode(text), None, true)
  {
    hide EscapeText, Encode;
    var inner := EscapeText(text, Some(quote)) + ([quote] + tail);
    assert [quote] + EscapeText(text, Some(quote)) + [quote] + tail == [quote] + inner;
    assert ([quote] + inner)[1..] == inner && ([quote] + tail)[1..] == tail;
    EscapedTextParses(text, [quote] + tail, [], Some(quote), true);
    assert [] + Encode(text) == Encode(text);
  }

  lemma EmptyParses(tail: string)
    ensures ParseFrom("\"\"" + tail, [], None, false) == ParseFrom(tail, [], None, true)
  {
    assert ("\"\"" + tail)[1..] == "\"" + tail && ("\"" + tail)[1..] == tail;
  }

  lemma PrintedParses(w: Written, tail: string)
    requires IsWritable(w)
    ensures ParseFrom(Print(w) + tail, [], None, false) == ParseFrom(tail, ValueOf(w), None, true)
  {
    hide ParseFrom, EscapeText, HexText;
    match w {
      case Bare(text) =>
        if text == [] {
          EmptyParses(tail);
        } else {
          EscapedTextParses(text, tail, [], None, false);
          assert [] + Encode(text) == Encode(text);
        }
      case Quoted(text, quote) => QuotedParses(text, quote, tail);
      case Hex(bytes) =>
        if bytes == [] {
          EmptyParses(tail);
        } else {
          HexTextParses(bytes, tail, [], false);
          assert [] + bytes == bytes;
        }
    }
  }

  lemma SpaceSeparates(argument: Bytes, tail: string)
    ensures ParseFrom(" " + tail, argument, None, true) == Before(argument, ParseFrom(tail, [], None, false))
  {
    assert (" " + tail)[1..] == tail;
  }

  lemma TextEnds(argument: Bytes)
    ensures ParseFrom([], argument, None, true) == Success([argument])
  {
  }

  lemma {:induction false} AllPrintedParse(ws: seq<Written>)
    requires ws != [] && forall i :: 0 <= i < |ws| ==> IsWritable(ws[i])
    ensures ParseFrom(PrintAll(ws), [], None, false) == Success(ValuesOf(ws))
    decreases |ws|
  {
    hide ParseFrom, Print, ValueOf, IsWritable;
    if |ws| == 1 {
      assert Print(ws[0]) + [] == Print(ws[0]);
      PrintedParses(ws[0], []);
      TextEnds(ValueOf(ws[0]));
      assert ValuesOf(ws[1..]) == [] && [ValueOf(ws[0])] + [] == [ValueOf(ws[0])];
    } else {
      assert PrintAll(ws) == Print(ws[0]) + (" " + PrintAll(ws[1..]));
      PrintedParses(ws[0], " " + PrintAll(ws[1..]));
      SpaceSeparates(ValueOf(ws[0]), PrintAll(ws[1..]));
      AllPrintedParse(ws[1..]);
    }
  }

  /** Any list of arguments, each written in any of the ways, parses back to their values. */
  lemma CommandRoundTrip(ws: seq<Written>)
    requires ws != [] && forall i :: 0 <= i < |ws| ==> IsWritable(ws[i])
    requires |Encode(PrintAll(ws))| <= MAX_COMMAND_BYTES
    ensures Parse(PrintAll(ws)) == Success(ValuesOf(ws))
  {
    hide ParseFrom, PrintAll, Encode;
    AllPrintedParse(ws);
  }

  // ----- plain text

  function WordWidth(s: string): (width: nat)
    ensures width <= |s|
    ensures s != [] && !IsWhitespace(s[0]) ==> width > 0
  {
    if s == [] || IsWhitespace(s[0]) then 0 else 1 + WordWidth(s[1..])
  }

  /** The maximal runs of characters that are no whitespace. */
  function Words(s: string): seq<string>
    decreases |s|
  {
    if s == [] then []
    else if IsWhitespace(s[0]) then Words(s[1..])
    else [s[..WordWidth(s)]] + Words(s[WordWidth(s)..])
  }

  function EncodeWords(words: seq<string>): seq<Bytes>
  {
    if words == [] then [] else [Encode(words[0])] + EncodeWords(words[1..])
  }

  predicate IsPlain(s: string) { forall i :: 0 <= i < |s| ==> !IsQuote(s[i]) && s[i] != '\\' }

  lemma {:induction false} WordParses(s: string, argument: Bytes)
    requires IsPlain(s)
    ensures ParseFrom(s, argument, None, true) ==
            Before(argument + Encode(s[..WordWidth(s)]), ParseFrom(s[WordWidth(s)..], [], None, false))
    decreases |s|
  {
    hide EncodeChar;
    if s == [] || IsWhitespace(s[0]) {
      assert argument + Encode(s[..0]) == argument && s[0..] == s;
      assert [argument] + [] == [argument];
    } else {
      var width := WordWidth(s);
      WordParses(s[1..], argument + EncodeChar(s[0]));
      assert s[1..][..width - 1] == s[..width][1..] && s[1..][width - 1..] == s[width..];
      assert argument + EncodeChar(s[0]) + Encode(s[..width][1..]) == argument + Encode(s[..width]);
    }
  }

  lemma {:induction false} PlainTextParses(s: string)
    requires IsPlain(s)
    ensures ParseFrom(s, [], None, false) == Success(EncodeWords(Words(s)))
    decreases |s|
  {
    hide EncodeChar, Encode, WordWidth;
    if s != [] {
      if IsWhitespace(s[0]) {
        PlainTextParses(s[1..]);
      } else {
        FirstCharStarts(s);
        WordParses(s, []);
        PlainTextParses(s[WordWidth(s)..]);
        assert [] + Encode(s[..WordWidth(s)]) == Encode(s[..WordWidth(s)]);
        var words := Words(s);
        assert words[1..] == Words(s[WordWidth(s)..]);
      }
    }
  }

  lemma FirstCharStarts(s: string)
    requires IsPlain(s) && s != [] && !IsWhitespace(s[0])
    ensures ParseFrom(s, [], None, false) == ParseFrom(s, [], None, true)
  {
    hide EncodeChar;
  }

  /** Text without quotes and backslashes parses to its whitespace split. */
  lemma PlainCommandIsSplit(s: string)
    requires IsPlain(s) && |Encode(s)| <= MAX_COMMAND_BYTES
    ensures Parse(s) == if Words(s) == [] then Failure(Empty) else Success(EncodeWords(Words(s)))
  {
    hide ParseFrom, Words, Encode;
    PlainTextParses(s);
  }
}
