/**
 The grammar of console commands: a command parses to a list of byte strings exactly when it is written as
 one, each argument in letters, escapes and quoted runs.
 */
module RedisGrammar {
  import opened Wrappers
  import opened Utf8
  import opened Text
  import opened RedisCommand

  // ----- marks

  datatype Mark = Plain(c: char) | Named(c: char) | Pair(high: char, low: char)

  datatype Piece = Loose(mark: Mark) | Run(quote: char, marks: seq<Mark>)

  predicate IsDigitOf(c: char, k: nat)
  {
    k < 16 && (c == "0123456789abcdef"[k] || c == "0123456789ABCDEF"[k])
  }

  /** A plus sign in front of one digit is taken too. */
  predicate IsPairOf(high: char, low: char, byte: nat)
  {
    byte < 256 && IsDigitOf(low, byte % 16) && (IsDigitOf(high, byte / 16) || (high == '+' && byte < 16))
  }

  predicate IsPair(high: char, low: char) { exists byte :: 0 <= byte < 256 && IsPairOf(high, low, byte) }

  /** The mark may stand there: outside quotes, or within these. */
  predicate IsMark(mark: Mark, quote: Option<char>)
  {
    match mark
    case Plain(c) =>
      c != '\\' && (if quote == None then !IsWhitespace(c) && c != '\'' && c != '"' else c != quote.value)
    case Named(c) => c != 'x'
    case Pair(high, low) => IsPair(high, low)
  }

  function MarkText(mark: Mark): string
  {
    match mark
    case Plain(c) => [c]
    case Named(c) => ['\\', c]
    case Pair(high, low) => ['\\', 'x', high, low]
  }

  /** The bytes a mark stands for. */
  ghost predicate MarkMeans(mark: Mark, bytes: Bytes)
  {
    match mark
    case Plain(c) => bytes == EncodeChar(c)
    case Named(c) =>
      bytes == EncodeChar(if c == 'n' then 10 as char else if c == 'r' then 13 as char else if c == 't' then 9 as char else c)
    case Pair(high, low) => |bytes| == 1 && IsPairOf(high, low, bytes[0] as int)
  }

  lemma HexDigitIs(c: char)
    ensures forall k: nat :: k < 16 && IsDigitOf(c, k) ==> HexDigit(c) == Some(k)
    ensures HexDigit(c).Some? ==> HexDigit(c).value < 16 && IsDigitOf(c, HexDigit(c).value)
  {
  }

  lemma HexByteIs(high: char, low: char)
    ensures forall byte: nat :: IsPairOf(high, low, byte) ==> HexByte(high, low) == Some(byte)
    ensures HexByte(high, low).Some? ==> IsPairOf(high, low, HexByte(high, low).value)
  {
    hide HexByte, IsPairOf;
    forall byte: nat | IsPairOf(high, low, byte) ensures HexByte(high, low) == Some(byte) {
      PairIsByte(high, low, byte);
    }
    if HexByte(high, low).Some? {
      ByteIsPair(high, low);
    }
  }

  lemma ByteIsPair(high: char, low: char)
    requires HexByte(high, low).Some?
    ensures IsPairOf(high, low, HexByte(high, low).value)
  {
    hide HexDigit, IsDigitOf;
    HexDigitIs(low);
    HexDigitIs(high);
    var byte, l := HexByte(high, low).value, HexDigit(low).value;
    var h := if high == '+' then 0 else HexDigit(high).value;
    Sixteens(h, l);
  }

  lemma Sixteens(h: nat, l: nat)
    requires h < 16 && l < 16
    ensures 16 * h + l < 256 && (16 * h + l) / 16 == h && (16 * h + l) % 16 == l
  {
  }

  lemma PairIsByte(high: char, low: char, byte: nat)
    requires IsPairOf(high, low, byte)
    ensures HexByte(high, low) == Some(byte)
  {
    hide HexDigit, IsDigitOf;
    HexDigitIs(low);
    HexDigitIs(high);
    PlusIsNoDigit();
    assert byte == 16 * (byte / 16) + byte % 16;
  }

  lemma PlusIsNoDigit()
    ensures HexDigit('+') == None
  {
  }

  lemma PlainParses(c: char, tail: string, argument: Bytes, quote: Option<char>, started: bool)
    requires (quote.Some? ==> IsQuote(quote.value) && started) && IsMark(Plain(c), quote)
    ensures ParseFrom([c] + tail, argument, quote, started) == ParseFrom(tail, argument + EncodeChar(c), quote, true)
  {
    hide EncodeChar, EscapeOf;
    assert ([c] + tail)[1..] == tail && ([c] + tail)[0] == c;
    if quote.None? {
      assert !IsQuote(c);
    }
  }

  lemma EscapeParses(s: string, escape: Escape, argument: Bytes, quote: Option<char>, started: bool)
    requires s != [] && s[0] == '\\' && EscapeOf(s) == Success(escape)
    ensures ParseFrom(s, argument, quote, started) == ParseFrom(s[escape.width..], argument + escape.bytes, quote, true)
  {
    hide EscapeOf;
  }

  /** A mark is parsed as its bytes. */
  lemma MarkParses(mark: Mark, tail: string, argument: Bytes, quote: Option<char>, started: bool) returns (bytes: Bytes)
    requires (quote.Some? ==> IsQuote(quote.value) && started) && IsMark(mark, quote)
    ensures MarkMeans(mark, bytes)
    ensures ParseFrom(MarkText(mark) + tail, argument, quote, started) == ParseFrom(tail, argument + bytes, quote, true)
  {
    hide EncodeChar, HexByte, IsWhitespace, IsPairOf, ParseFrom;
    var s := MarkText(mark) + tail;
    match mark {
      case Plain(c) =>
        bytes := EncodeChar(c);
        PlainParses(c, tail, argument, quote, started);
      case Named(c) =>
        bytes := EncodeChar(Unescaped(c));
        NameIs(c);
        assert s[0] == '\\' && s[1] == c && s[2..] == tail;
        EscapeParses(s, Escape(bytes, 2), argument, quote, started);
      case Pair(high, low) =>
        var byte :| 0 <= byte < 256 && IsPairOf(high, low, byte);
        HexByteIs(high, low);
        bytes := [Byte(byte)];
        assert s[0] == '\\' && s[1] == 'x' && s[2] == high && s[3] == low && s[4..] == tail;
        EscapeParses(s, Escape(bytes, 4), argument, quote, started);
    }
  }

  lemma NameIs(c: char)
    ensures Unescaped(c) == if c == 'n' then 10 as char else if c == 'r' then 13 as char else if c == 't' then 9 as char else c
  {
  }

  // ----- arguments

  function MarksText(marks: seq<Mark>): string
  {
    if marks == [] then [] else MarkText(marks[0]) + MarksText(marks[1..])
  }

  predicate AreMarks(marks: seq<Mark>, quote: char)
  {
    forall i :: 0 <= i < |marks| ==> IsMark(marks[i], Some(quote))
  }

  ghost predicate MarksMean(marks: seq<Mark>, bytes: Bytes)
  {
    if marks == [] then bytes == []
    else exists first, rest :: MarkMeans(marks[0], first) && MarksMean(marks[1..], rest) && bytes == first + rest
  }

  function PieceText(piece: Piece): string
  {
    match piece
    case Loose(mark) => MarkText(mark)
    case Run(quote, marks) => [quote] + MarksText(marks) + [quote]
  }

  predicate IsPiece(piece: Piece)
  {
    match piece
    case Loose(mark) => IsMark(mark, None)
    case Run(quote, marks) => IsQuote(quote) && AreMarks(marks, quote)
  }

  ghost predicate PieceMeans(piece: Piece, bytes: Bytes)
  {
    match piece
    case Loose(mark) => MarkMeans(mark, bytes)
    case Run(_, marks) => MarksMean(marks, bytes)
  }

  function PiecesText(pieces: seq<Piece>): string
  {
    if pieces == [] then [] else PieceText(pieces[0]) + PiecesText(pieces[1..])
  }

  predicate ArePieces(pieces: seq<Piece>) { forall i :: 0 <= i < |pieces| ==> IsPiece(pieces[i]) }

  ghost predicate PiecesMean(pieces: seq<Piece>, bytes: Bytes)
  {
    if pieces == [] then bytes == []
    else exists first, rest :: PieceMeans(pieces[0], first) && PiecesMean(pieces[1..], rest) && bytes == first + rest
  }

  lemma {:induction false} MarksParse(marks: seq<Mark>, tail: string, argument: Bytes, quote: char) returns (bytes: Bytes)
    requires IsQuote(quote) && AreMarks(marks, quote)
    ensures MarksMean(marks, bytes)
    ensures ParseFrom(MarksText(marks) + tail, argument, Some(quote), true) ==
            ParseFrom(tail, argument + bytes, Some(quote), true)
    decreases |marks|
  {
    hide ParseFrom, MarkMeans, IsMark, MarkText;
    if marks == [] {
      bytes := [];
      assert MarksText(marks) + tail == tail && argument + bytes == argument;
    } else {
      var rest := MarksText(marks[1..]) + tail;
      assert MarksText(marks) + tail == MarkText(marks[0]) + rest;
      var first := MarkParses(marks[0], rest, argument, Some(quote), true);
      var more := MarksParse(marks[1..], tail, argument + first, quote);
      bytes := first + more;
      assert argument + first + more == argument + bytes;
    }
  }

  lemma QuoteOpens(quote: char, tail: string, argument: Bytes, started: bool)
    requires IsQuote(quote)
    ensures ParseFrom([quote] + tail, argument, None, started) == ParseFrom(tail, argument, Some(quote), true)
    ensures ParseFrom([quote] + tail, argument, Some(quote), started) == ParseFrom(tail, argument, None, started)
  {
    assert ([quote] + tail)[1..] == tail;
  }

  lemma PieceParses(piece: Piece, tail: string, argument: Bytes, started: bool) returns (bytes: Bytes)
    requires IsPiece(piece)
    ensures PieceMeans(piece, bytes)
    ensures ParseFrom(PieceText(piece) + tail, argument, None, started) == ParseFrom(tail, argument + bytes, None, true)
  {
    hide ParseFrom, MarkMeans, MarksMean, MarksText;
    match piece {
      case Loose(mark) => bytes := MarkParses(mark, tail, argument, None, started);
      case Run(quote, marks) =>
        assert PieceText(piece) + tail == [quote] + (MarksText(marks) + ([quote] + tail));
        QuoteOpens(quote, MarksText(marks) + ([quote] + tail), argument, started);
        bytes := MarksParse(marks, [quote] + tail, argument, quote);
        QuoteOpens(quote, tail, argument + bytes, true);
    }
  }

  lemma {:induction false} PiecesParse(pieces: seq<Piece>, tail: string, argument: Bytes, started: bool) returns (bytes: Bytes)
    requires ArePieces(pieces)
    ensures PiecesMean(pieces, bytes)
    ensures ParseFrom(PiecesText(pieces) + tail, argument, None, started) ==
            ParseFrom(tail, argument + bytes, None, started || pieces != [])
    decreases |pieces|
  {
    hide ParseFrom, PieceMeans, PieceText, IsPiece;
    if pieces == [] {
      bytes := [];
      assert PiecesText(pieces) + tail == tail && argument + bytes == argument;
    } else {
      var rest := PiecesText(pieces[1..]) + tail;
      assert PiecesText(pieces) + tail == PieceText(pieces[0]) + rest;
      var first := PieceParses(pieces[0], rest, argument, started);
      var more := PiecesParse(pieces[1..], tail, argument + first, true);
      bytes := first + more;
      assert argument + first + more == argument + bytes;
    }
  }

  // ----- lines

  /** An argument and the whitespace behind it. */
  datatype Word = Word(pieces: seq<Piece>, gap: string)

  function LineText(words: seq<Word>): string
  {
    if words == [] then [] else PiecesText(words[0].pieces) + words[0].gap + LineText(words[1..])
  }

  /** Arguments are not empty texts, and whitespace stands between any two. */
  predicate IsLine(words: seq<Word>)
  {
    forall i :: 0 <= i < |words| ==>
      && words[i].pieces != [] && ArePieces(words[i].pieces) && IsBlank(words[i].gap)
      && (i + 1 < |words| ==> words[i].gap != [])
  }

  ghost predicate LineMeans(words: seq<Word>, arguments: seq<Bytes>)
  {
    |arguments| == |words| && forall i :: 0 <= i < |words| ==> PiecesMean(words[i].pieces, arguments[i])
  }

  lemma {:induction false} GapParses(gap: string, tail: string, argument: Bytes)
    requires IsBlank(gap)
    ensures ParseFrom(gap + tail, [], None, false) == ParseFrom(tail, [], None, false)
    ensures gap != [] ==> ParseFrom(gap + tail, argument, None, true) == Before(argument, ParseFrom(tail, [], None, false))
  {
    if gap == [] {
      assert gap + tail == tail;
    } else {
      assert (gap + tail)[1..] == gap[1..] + tail;
      GapParses(gap[1..], tail, []);
    }
  }

  lemma {:induction false} LineParses(words: seq<Word>) returns (arguments: seq<Bytes>)
    requires IsLine(words)
    ensures LineMeans(words, arguments) && ParseFrom(LineText(words), [], None, false) == Success(arguments)
    decreases |words|
  {
    hide ParseFrom, PiecesMean, ArePieces, IsBlank, PiecesText;
    if words == [] {
      arguments := [];
      NothingParses([]);
    } else {
      var word, rest := words[0], words[1..];
      var more := LineParses(rest);
      assert LineText(words) == PiecesText(word.pieces) + (word.gap + LineText(rest));
      var bytes := PiecesParse(word.pieces, word.gap + LineText(rest), [], false);
      assert [] + bytes == bytes;
      arguments := [bytes] + more;
      GapParses(word.gap, LineText(rest), bytes);
      if word.gap == [] {
        assert rest == [] && word.gap + LineText(rest) == [];
        NothingParses(bytes);
        assert more == [] && [bytes] + [] == [bytes];
      }
    }
  }

  lemma NothingParses(argument: Bytes)
    ensures ParseFrom([], [], None, false) == Success([]) && ParseFrom([], argument, None, true) == Success([argument])
  {
  }

  // ----- what was parsed was written

  /** The rest of a command: of the open quoted run, of the argument, and the arguments behind it. */
  datatype Rest = Rest(marks: seq<Mark>, pieces: seq<Piece>, gap: string, words: seq<Word>)

  function RestText(r: Rest, quote: Option<char>): string
  {
    (if quote.Some? then MarksText(r.marks) + [quote.value] else []) + PiecesText(r.pieces) + r.gap + LineText(r.words)
  }

  predicate IsRest(r: Rest, quote: Option<char>, started: bool)
  {
    && (if quote.Some? then AreMarks(r.marks, quote.value) else r.marks == [])
    && ArePieces(r.pieces) && IsBlank(r.gap) && IsLine(r.words)
    && (r.words != [] && (started || r.pieces != []) ==> r.gap != [])
  }

  /** With what the argument holds already, the rest means these arguments. */
  ghost predicate RestMeans(r: Rest, argument: Bytes, started: bool, arguments: seq<Bytes>)
  {
    exists run, more, later ::
      && MarksMean(r.marks, run) && PiecesMean(r.pieces, more) && LineMeans(r.words, later)
      && arguments == (if started || r.pieces != [] then [argument + run + more] else []) + later
  }

  ghost predicate IsWrittenAs(
    s: string, argument: Bytes, quote: Option<char>, started: bool, r: Rest, arguments: seq<Bytes>)
  {
    s == RestText(r, quote) && IsRest(r, quote, started) && RestMeans(r, argument, started, arguments)
  }

  lemma NothingIsWritten(argument: Bytes, started: bool)
    ensures IsWrittenAs([], argument, None, started, Rest([], [], [], []), if started then [argument] else [])
  {
    assert MarksMean([], []) && PiecesMean([], []) && LineMeans([], []);
    assert argument + [] + [] == argument;
  }

  lemma MeaningOf(r: Rest, argument: Bytes, started: bool, arguments: seq<Bytes>)
    returns (run: Bytes, more: Bytes, later: seq<Bytes>)
    requires RestMeans(r, argument, started, arguments)
    ensures MarksMean(r.marks, run) && PiecesMean(r.pieces, more) && LineMeans(r.words, later)
    ensures arguments == (if started || r.pieces != [] then [argument + run + more] else []) + later
  {
    hide MarksMean, PiecesMean, LineMeans;
    run, more, later :|
      && MarksMean(r.marks, run) && PiecesMean(r.pieces, more) && LineMeans(r.words, later)
      && arguments == (if started || r.pieces != [] then [argument + run + more] else []) + later;
  }

  lemma MarksGoOn(mark: Mark, marks: seq<Mark>, bytes: Bytes, run: Bytes)
    requires MarkMeans(mark, bytes) && MarksMean(marks, run)
    ensures MarksMean([mark] + marks, bytes + run) && MarksText([mark] + marks) == MarkText(mark) + MarksText(marks)
  {
    hide MarkMeans, MarkText;
    assert ([mark] + marks)[1..] == marks;
  }

  lemma PiecesGoOn(piece: Piece, pieces: seq<Piece>, bytes: Bytes, more: Bytes)
    requires PieceMeans(piece, bytes) && PiecesMean(pieces, more)
    ensures PiecesMean([piece] + pieces, bytes + more)
    ensures PiecesText([piece] + pieces) == PieceText(piece) + PiecesText(pieces)
  {
    hide PieceMeans, PieceText;
    assert ([piece] + pieces)[1..] == pieces;
  }

  /** A mark in front of the rest of a quoted run. */
  lemma MarkInRun(
    mark: Mark, bytes: Bytes, s: string, argument: Bytes, quote: char, r: Rest, arguments: seq<Bytes>)
    returns (whole: Rest)
    requires IsMark(mark, Some(quote)) && MarkMeans(mark, bytes)
    requires IsWrittenAs(s, argument + bytes, Some(quote), true, r, arguments)
    ensures IsWrittenAs(MarkText(mark) + s, argument, Some(quote), true, whole, arguments)
  {
    hide MarkMeans, IsMark, MarkText, MarksMean, MarksText, IsBlank, LineMeans, IsLine, LineText, PiecesMean, PiecesText;
    var run, more, later := MeaningOf(r, argument + bytes, true, arguments);
    MarksGoOn(mark, r.marks, bytes, run);
    whole := r.(marks := [mark] + r.marks);
    assert argument + bytes + run + more == argument + (bytes + run) + more;
    assert MarkText(mark) + s == RestText(whole, Some(quote));
  }

  /** A piece in front of the rest of an argument. */
  lemma PieceInFront(
    piece: Piece, bytes: Bytes, s: string, argument: Bytes, started: bool, r: Rest, arguments: seq<Bytes>)
    returns (whole: Rest)
    requires IsPiece(piece) && PieceMeans(piece, bytes)
    requires IsWrittenAs(s, argument + bytes, None, true, r, arguments)
    ensures IsWrittenAs(PieceText(piece) + s, argument, None, started, whole, arguments)
  {
    hide PieceMeans, IsPiece, PieceText, MarksMean, MarksText, IsBlank, LineMeans, IsLine, LineText, PiecesMean, PiecesText;
    var run, more, later := MeaningOf(r, argument + bytes, true, arguments);
    PiecesGoOn(piece, r.pieces, bytes, more);
    NoMarksMeanNothing(run);
    whole := r.(pieces := [piece] + r.pieces);
    assert argument + bytes + run + more == argument + run + (bytes + more);
    assert PieceText(piece) + s == RestText(whole, None);
  }

  lemma NoMarksMeanNothing(run: Bytes)
    ensures MarksMean([], run) <==> run == []
  {
  }

  /** An opening quote in front of the rest of its run. */
  lemma QuoteInFront(quote: char, s: string, argument: Bytes, started: bool, r: Rest, arguments: seq<Bytes>)
    returns (whole: Rest)
    requires IsQuote(quote) && IsWrittenAs(s, argument, Some(quote), true, r, arguments)
    ensures IsWrittenAs([quote] + s, argument, None, started, whole, arguments)
  {
    hide MarksText, MarksMean, AreMarks, IsBlank, LineMeans, IsLine, LineText, PiecesMean, PiecesText;
    var run, more, later := MeaningOf(r, argument, true, arguments);
    PiecesGoOn(Run(quote, r.marks), r.pieces, run, more);
    NoMarksMeanNothing([]);
    whole := Rest([], [Run(quote, r.marks)] + r.pieces, r.gap, r.words);
    assert argument + [] + (run + more) == argument + run + more;
    assert [quote] + s == RestText(whole, None);
  }

  /** A closing quote in front of the rest of the argument. */
  lemma QuoteBehind(quote: char, s: string, argument: Bytes, r: Rest, arguments: seq<Bytes>)
    requires IsWrittenAs(s, argument, None, true, r, arguments)
    ensures IsWrittenAs([quote] + s, argument, Some(quote), true, r, arguments)
  {
    hide ArePieces, PiecesMean, IsBlank, LineMeans, IsLine, LineText, PiecesText;
    assert [quote] + s == RestText(r, Some(quote));
  }

  /** Whitespace in front of the rest of the line. */
  lemma GapInFront(c: char, s: string, argument: Bytes, started: bool, r: Rest, arguments: seq<Bytes>)
    returns (whole: Rest)
    requires IsWhitespace(c) && IsWrittenAs(s, [], None, false, r, arguments)
    ensures IsWrittenAs([c] + s, argument, None, started, whole, (if started then [argument] else []) + arguments)
  {
    hide PiecesMean, PiecesText, ArePieces, IsWhitespace;
    var run, more, later :|
      && MarksMean(r.marks, run) && PiecesMean(r.pieces, more) && LineMeans(r.words, later)
      && arguments == (if false || r.pieces != [] then [[] + run + more] else []) + later;
    assert run == [] && [] + run + more == more;
    NothingMeant(argument);
    if r.pieces == [] {
      whole := Rest([], [], [c] + r.gap, r.words);
      assert [c] + s == RestText(whole, None) by {
        NoPieces();
      }
      assert later == arguments;
    } else {
      whole := Rest([], [], [c], [Word(r.pieces, r.gap)] + r.words);
      assert whole.words[1..] == r.words;
      assert [c] + s == RestText(whole, None) by {
        NoPieces();
      }
      assert LineMeans(whole.words, arguments);
    }
    assert argument + [] + [] == argument;
  }

  lemma NoPieces()
    ensures PiecesText([]) == [] && ArePieces([])
  {
  }

  lemma NothingMeant(argument: Bytes)
    ensures MarksMean([], []) && PiecesMean([], []) && ArePieces([])
  {
  }

  /** What is parsed without an error is written as a rest. */
  lemma {:induction false} ParsedIsWritten(s: string, argument: Bytes, quote: Option<char>, started: bool) returns (r: Rest)
    requires (quote.Some? ==> IsQuote(quote.value) && started) && (!started ==> argument == [])
    requires ParseFrom(s, argument, quote, started).Success?
    ensures IsWrittenAs(s, argument, quote, started, r, ParseFrom(s, argument, quote, started).value)
    decreases |s|
  {
    hide IsWrittenAs, EscapeOf, IsWhitespace, EncodeChar;
    if s == [] {
      r := Rest([], [], [], []);
      NothingIsWritten(argument, started);
    } else {
      assert s == [s[0]] + s[1..];
      if quote.None? && IsWhitespace(s[0]) {
        var rest := ParsedIsWritten(s[1..], [], None, false);
        r := GapInFront(s[0], s[1..], argument, started, rest, ParseFrom(s[1..], [], None, false).value);
        if !started {
          assert [] + ParseFrom(s[1..], [], None, false).value == ParseFrom(s[1..], [], None, false).value;
        }
      } else if IsQuote(s[0]) && quote == Some(s[0]) {
        r := ParsedIsWritten(s[1..], argument, None, started);
        QuoteBehind(s[0], s[1..], argument, r, ParseFrom(s, argument, quote, started).value);
      } else if IsQuote(s[0]) && quote.None? {
        var rest := ParsedIsWritten(s[1..], argument, Some(s[0]), true);
        r := QuoteInFront(s[0], s[1..], argument, started, rest, ParseFrom(s, argument, quote, started).value);
      } else {
        var mark, bytes := MarkIsFound(s, argument, quote, started);
        var tail := s[|MarkText(mark)|..];
        var rest := ParsedIsWritten(tail, argument + bytes, quote, true);
        r := MarkBefore(mark, bytes, tail, argument, quote, started, rest, ParseFrom(s, argument, quote, started).value);
      }
    }
  }

  lemma MarkBefore(
    mark: Mark, bytes: Bytes, s: string, argument: Bytes, quote: Option<char>, started: bool, r: Rest, arguments: seq<Bytes>)
    returns (whole: Rest)
    requires IsMark(mark, quote) && MarkMeans(mark, bytes) && (quote.Some? ==> started)
    requires IsWrittenAs(s, argument + bytes, quote, true, r, arguments)
    ensures IsWrittenAs(MarkText(mark) + s, argument, quote, started, whole, arguments)
  {
    hide MarkMeans, IsMark, MarkText, IsWrittenAs;
    match quote {
      case Some(q) => whole := MarkInRun(mark, bytes, s, argument, q, r, arguments);
      case None => whole := PieceInFront(Loose(mark), bytes, s, argument, started, r, arguments);
    }
  }

  /** What else is parsed begins with a mark. */
  lemma MarkIsFound(s: string, argument: Bytes, quote: Option<char>, started: bool) returns (mark: Mark, bytes: Bytes)
    requires s != [] && ParseFrom(s, argument, quote, started).Success? && (quote.Some? ==> IsQuote(quote.value) && started)
    requires !(quote.None? && IsWhitespace(s[0])) && !(IsQuote(s[0]) && (quote.None? || quote == Some(s[0])))
    ensures IsMark(mark, quote) && MarkMeans(mark, bytes) && 0 < |MarkText(mark)| <= |s|
    ensures s == MarkText(mark) + s[|MarkText(mark)|..]
    ensures ParseFrom(s, argument, quote, started) == ParseFrom(s[|MarkText(mark)|..], argument + bytes, quote, true)
  {
    hide EncodeChar, HexByte, IsPairOf, IsWhitespace;
    if s[0] == '\\' {
      var escape := EscapeOf(s).value;
      EscapeParses(s, escape, argument, quote, started);
      bytes := escape.bytes;
      if s[1] == 'x' {
        HexByteIs(s[2], s[3]);
        mark := Pair(s[2], s[3]);
        assert s[..4] == MarkText(mark);
      } else {
        NameIs(s[1]);
        mark := Named(s[1]);
        assert s[..2] == MarkText(mark);
      }
    } else {
      mark, bytes := Plain(s[0]), EncodeChar(s[0]);
      assert s == [s[0]] + s[1..];
      PlainParses(s[0], s[1..], argument, quote, started);
    }
  }

  /** The command is written as these words behind whitespace. */
  ghost predicate IsWritten(command: string, arguments: seq<Bytes>)
  {
    exists gap: string, words: seq<Word> ::
      IsBlank(gap) && IsLine(words) && command == gap + LineText(words) && LineMeans(words, arguments)
  }

  lemma WrittenIsParsed(command: string, arguments: seq<Bytes>)
    requires IsWritten(command, arguments)
    ensures ParseFrom(command, [], None, false) == Success(arguments)
  {
    hide ParseFrom, IsLine, LineText;
    var gap: string, words: seq<Word> :|
      IsBlank(gap) && IsLine(words) && command == gap + LineText(words) && LineMeans(words, arguments);
    var found := LineParses(words);
    GapParses(gap, LineText(words), []);
    LineMeaningIsUnique(words, arguments, found);
  }

  lemma MarkMeaningIsUnique(mark: Mark, one: Bytes, other: Bytes)
    requires MarkMeans(mark, one) && MarkMeans(mark, other)
    ensures one == other
  {
    hide IsPairOf, EncodeChar;
    if mark.Pair? {
      HexByteIs(mark.high, mark.low);
    }
  }

  lemma {:induction false} MarksMeaningIsUnique(marks: seq<Mark>, one: Bytes, other: Bytes)
    requires MarksMean(marks, one) && MarksMean(marks, other)
    ensures one == other
    decreases |marks|
  {
    hide MarkMeans;
    if marks != [] {
      var a, b :| MarkMeans(marks[0], a) && MarksMean(marks[1..], b) && one == a + b;
      var c, d :| MarkMeans(marks[0], c) && MarksMean(marks[1..], d) && other == c + d;
      MarkMeaningIsUnique(marks[0], a, c);
      MarksMeaningIsUnique(marks[1..], b, d);
    }
  }

  lemma {:induction false} PiecesMeaningIsUnique(pieces: seq<Piece>, one: Bytes, other: Bytes)
    requires PiecesMean(pieces, one) && PiecesMean(pieces, other)
    ensures one == other
    decreases |pieces|
  {
    hide MarkMeans, MarksMean;
    if pieces != [] {
      var a, b :| PieceMeans(pieces[0], a) && PiecesMean(pieces[1..], b) && one == a + b;
      var c, d :| PieceMeans(pieces[0], c) && PiecesMean(pieces[1..], d) && other == c + d;
      match pieces[0] {
        case Loose(mark) => MarkMeaningIsUnique(mark, a, c);
        case Run(_, marks) => MarksMeaningIsUnique(marks, a, c);
      }
      PiecesMeaningIsUnique(pieces[1..], b, d);
    }
  }

  lemma LineMeaningIsUnique(words: seq<Word>, one: seq<Bytes>, other: seq<Bytes>)
    requires LineMeans(words, one) && LineMeans(words, other)
    ensures one == other
  {
    hide PiecesMean;
    forall i | 0 <= i < |words| ensures one[i] == other[i] {
      PiecesMeaningIsUnique(words[i].pieces, one[i], other[i]);
    }
  }

  lemma WrittenBy(command: string, gap: string, words: seq<Word>, arguments: seq<Bytes>)
    requires IsBlank(gap) && IsLine(words) && command == gap + LineText(words) && LineMeans(words, arguments)
    ensures IsWritten(command, arguments)
  {
  }

  lemma RestIsLine(s: string, r: Rest)
    requires s == RestText(r, None) && IsRest(r, None, false)
    ensures s == PiecesText(r.pieces) + r.gap + LineText(r.words) && r.marks == [] && IsBlank(r.gap) && IsLine(r.words)
  {
    hide PiecesText, LineText, IsLine;
    assert [] + PiecesText(r.pieces) == PiecesText(r.pieces);
  }

  lemma ParsedIsLine(command: string)
    requires ParseFrom(command, [], None, false).Success?
    ensures IsWritten(command, ParseFrom(command, [], None, false).value)
  {
    hide ParseFrom, LineText, PiecesMean, MarksMean, MarksText, PiecesText, IsWritten, IsLine, LineMeans, RestMeans, RestText, IsRest;
    var arguments := ParseFrom(command, [], None, false).value;
    var r := ParsedIsWritten(command, [], None, false);
    var run, more, later := MeaningOf(r, [], false, arguments);
    RestIsLine(command, r);
    NoMarksMeanNothing(run);
    if r.pieces == [] {
      NoPieces();
      assert command == r.gap + LineText(r.words) && arguments == later;
      WrittenBy(command, r.gap, r.words, arguments);
    } else {
      FirstWord(r, more, later);
      var words := [Word(r.pieces, r.gap)] + r.words;
      assert [] + run + more == more;
      assert command == [] + LineText(words);
      WrittenBy(command, [], words, arguments);
    }
  }

  lemma FirstWord(r: Rest, more: Bytes, later: seq<Bytes>)
    requires r.pieces != [] && IsRest(r, None, false) && PiecesMean(r.pieces, more) && LineMeans(r.words, later)
    ensures var words := [Word(r.pieces, r.gap)] + r.words;
            && IsLine(words) && LineMeans(words, [more] + later)
            && LineText(words) == PiecesText(r.pieces) + r.gap + LineText(r.words)
  {
    hide PiecesMean, ArePieces, IsBlank, PiecesText;
    assert ([Word(r.pieces, r.gap)] + r.words)[1..] == r.words;
  }

  /** A command of at most 1 MiB with at least one argument parses to these exactly when it is written as them. */
  lemma ParsesExactly(command: string, arguments: seq<Bytes>)
    ensures Parse(command) == Success(arguments) <==>
            |Encode(command)| <= 1_048_576 && arguments != [] && IsWritten(command, arguments)
  {
    hide ParseFrom, IsWritten, Encode;
    if ParseFrom(command, [], None, false).Success? {
      ParsedIsLine(command);
    }
    if IsWritten(command, arguments) {
      WrittenIsParsed(command, arguments);
    }
  }

  /** `\x` without two digits behind it. */
  ghost predicate IsBadEscape(s: string, i: nat)
  {
    && i + 1 < |s| && s[i] == '\\' && s[i + 1] == 'x'
    && (|s| < i + 4 || !IsPair(s[i + 2], s[i + 3]))
  }

  /** What a failure says about the text it is found in. */
  ghost predicate IsTrueOf(error: CommandError, s: string, quote: Option<char>)
  {
    match error
    case IncompleteEscape => s != [] && s[|s| - 1] == '\\'
    case InvalidHex => exists i: nat :: IsBadEscape(s, i)
    case UnterminatedQuote => quote.Some? || exists i :: 0 <= i < |s| && IsQuote(s[i])
    case _ => false
  }

  lemma EscapeErrorIsTrue(s: string, quote: Option<char>)
    requires s != [] && s[0] == '\\' && EscapeOf(s).Failure?
    ensures IsTrueOf(EscapeOf(s).error, s, quote)
  {
    hide HexByte, IsPairOf;
    if |s| >= 2 && s[1] == 'x' {
      if |s| >= 4 {
        HexByteIs(s[2], s[3]);
      }
      assert IsBadEscape(s, 0);
    }
  }

  lemma TruthGoesBack(error: CommandError, s: string, width: nat, quote: Option<char>, before: Option<char>)
    requires width <= |s| && IsTrueOf(error, s[width..], quote)
    requires quote.Some? ==> before.Some? || exists i :: 0 <= i < |s| && IsQuote(s[i])
    ensures IsTrueOf(error, s, before)
  {
    hide IsPairOf;
    var tail := s[width..];
    match error {
      case InvalidHex =>
        var i: nat :| IsBadEscape(tail, i);
        assert s[width + i] == '\\' && s[width + i + 1] == 'x';
        if |s| >= width + i + 4 {
          assert s[width + i + 2] == tail[i + 2] && s[width + i + 3] == tail[i + 3];
        }
        assert IsBadEscape(s, width + i);
      case UnterminatedQuote =>
        if !quote.Some? {
          var i :| 0 <= i < |tail| && IsQuote(tail[i]);
          assert s[width + i] == tail[i];
        }
      case _ =>
    }
  }

  lemma {:induction false} ParseErrorIsTrue(s: string, argument: Bytes, quote: Option<char>, started: bool)
    requires ParseFrom(s, argument, quote, started).Failure?
    ensures IsTrueOf(ParseFrom(s, argument, quote, started).error, s, quote)
    decreases |s|
  {
    hide EncodeChar, EscapeOf, IsWhitespace, IsTrueOf;
    if s == [] {
      UnterminatedIsTrue(s, quote);
    } else {
      var error := ParseFrom(s, argument, quote, started).error;
      if quote.None? && IsWhitespace(s[0]) {
        ParseErrorIsTrue(s[1..], if started then [] else argument, None, false);
        TruthGoesBack(error, s, 1, None, quote);
      } else if IsQuote(s[0]) {
        var now := if quote == Some(s[0]) then None else if quote.None? then Some(s[0]) else quote;
        var held := if quote.Some? && quote != Some(s[0]) then argument + EncodeChar(s[0]) else argument;
        ParseErrorIsTrue(s[1..], held, now, quote.None? || started);
        TruthGoesBack(error, s, 1, now, quote);
      } else if s[0] == '\\' {
        if EscapeOf(s).Failure? {
          EscapeErrorIsTrue(s, quote);
        } else {
          var escape := EscapeOf(s).value;
          ParseErrorIsTrue(s[escape.width..], argument + escape.bytes, quote, true);
          TruthGoesBack(error, s, escape.width, quote, quote);
        }
      } else {
        ParseErrorIsTrue(s[1..], argument + EncodeChar(s[0]), quote, true);
        TruthGoesBack(error, s, 1, quote, quote);
      }
    }
  }

  lemma UnterminatedIsTrue(s: string, quote: Option<char>)
    requires quote.Some?
    ensures IsTrueOf(UnterminatedQuote, s, quote)
  {
  }

  /** Why a command does not parse. */
  lemma FailuresAre(command: string)
    ensures Parse(command) == Failure(TooLarge) <==> |Encode(command)| > 1_048_576
    ensures Parse(command) == Failure(Empty) <==> |Encode(command)| <= 1_048_576 && IsWritten(command, [])
    ensures Parse(command).Failure? && Parse(command).error != TooLarge && Parse(command).error != Empty ==>
              IsTrueOf(Parse(command).error, command, None)
  {
    hide ParseFrom, IsWritten, Encode, IsTrueOf;
    if ParseFrom(command, [], None, false).Success? {
      ParsedIsLine(command);
    } else {
      ParseErrorIsTrue(command, [], None, false);
      NoLimitError(command);
    }
    if IsWritten(command, []) {
      WrittenIsParsed(command, []);
    }
  }

  lemma NoLimitError(command: string)
    requires ParseFrom(command, [], None, false).Failure?
    ensures ParseFrom(command, [], None, false).error != TooLarge && ParseFrom(command, [], None, false).error != Empty
  {
    ParseErrorIsTrue(command, [], None, false);
    hide ParseFrom;
  }
}
