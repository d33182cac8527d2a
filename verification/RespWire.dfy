/**
 The RESP grammar and the reader: the reader takes exactly the well-formed replies within the limits, each
 as its value, and every successful read is paid for byte by byte.

 The forms follow the RESP protocol specification, sections "Simple strings" to "Pushes" and
 "Attributes"; null has its RESP2 and RESP3 forms.
 */
module RespWire {
  import opened Wrappers
  import opened Text
  import opened Utf8
  import opened Resp

  // ----- the grammar

  datatype WireEntry = WireEntry(key: Wire, value: Wire)

  /** `length` is the length as it is written, which need not be the canonical numeral. */
  datatype Wire =
    | Line(prefix: char, payload: Bytes)
    | NullBlob(prefix: char, length: Bytes)
    | Blob(prefix: char, length: Bytes, bytes: Bytes)
    | NullGroup(prefix: char, length: Bytes)
    | Group(prefix: char, length: Bytes, items: seq<Wire>)
    | Pairs(length: Bytes, pairs: seq<WireEntry>)
    | Attributed(length: Bytes, attributes: seq<WireEntry>, reply: Wire)

  const CRLF := "\r\n"

  function Head(prefix: char, payload: Bytes): Bytes { [prefix] + payload + CRLF }

  function Header(prefix: char, count: nat): Bytes { Head(prefix, Decimal(count)) }

  function EncodeWire(w: Wire): (bytes: Bytes)
    ensures bytes != []
  {
    match w
    case Line(prefix, payload) => Head(prefix, payload)
    case NullBlob(prefix, length) => Head(prefix, length)
    case Blob(prefix, length, bytes) => Head(prefix, length) + (bytes + CRLF)
    case NullGroup(prefix, length) => Head(prefix, length)
    case Group(prefix, length, items) => Head(prefix, length) + EncodeAll(items)
    case Pairs(length, pairs) => Head('%', length) + EncodePairs(pairs)
    case Attributed(length, attributes, reply) =>
      Head('|', length) + (EncodePairs(attributes) + EncodeWire(reply))
  }

  function EncodeAll(ws: seq<Wire>): Bytes
  {
    if ws == [] then [] else EncodeWire(ws[0]) + EncodeAll(ws[1..])
  }

  function EncodePairs(pairs: seq<WireEntry>): Bytes
  {
    if pairs == [] then [] else EncodePair(pairs[0]) + EncodePairs(pairs[1..])
  }

  function EncodePair(pair: WireEntry): Bytes { EncodeWire(pair.key) + EncodeWire(pair.value) }

  predicate AreDigits(digits: Bytes) { digits != "" && forall i :: 0 <= i < |digits| ==> '0' <= digits[i] <= '9' }

  /** Digits, with a minus sign or without. */
  predicate IsWholeNumber(payload: Bytes)
  {
    AreDigits(payload) || (payload != "" && payload[0] == '-' && AreDigits(payload[1..]))
  }

  predicate IsScalar(prefix: char, payload: Bytes)
  {
    match prefix
    case '+' => IsUtf8(payload)
    case '-' => IsUtf8(payload)
    case ',' => IsUtf8(payload)
    case ':' => IsWholeNumber(payload)
    case '(' => IsWholeNumber(payload)
    case '#' => payload == "t" || payload == "f"
    case '_' => payload == ""
    case _ => false
  }

  function ScalarMeaning(prefix: char, payload: Bytes): RespValue
  {
    match prefix
    case '+' => Simple(payload)
    case '-' => Error(payload)
    case ',' => Double(payload)
    case ':' => Integer(payload)
    case '(' => BigNumber(payload)
    case '#' => Boolean(payload == "t")
    case _ => Null
  }

  /** A line that fits the limit and ends at its own end. */
  predicate FitsLine(payload: Bytes) { '\n' !in payload && |payload| + 3 <= 1_048_576 }

  /** A number as it may be written: with a sign, and with zeros in front. */
  ghost predicate Writes(length: Bytes, n: int)
  {
    exists sign: string, zeros: string ::
      && (sign == "" || sign == "+" || sign == "-") && AreZeros(zeros)
      && (if sign == "-" then n <= 0 else n >= 0) && length == sign + zeros + Decimal(if n < 0 then -n else n)
  }

  /** A length has to fit 63 bits; -1 stands for null. */
  ghost predicate IsLengthOf(length: Bytes, n: int) { Writes(length, n) && -1 <= n < 0x8000_0000_0000_0000 }

  ghost predicate IsLength(length: Bytes, n: int) { FitsLine(length) && IsLengthOf(length, n) }

  ghost predicate IsValid(w: Wire)
  {
    match w
    case Line(prefix, payload) => IsScalar(prefix, payload) && FitsLine(payload)
    case NullBlob(prefix, length) => prefix in "$!=" && IsLength(length, -1)
    case Blob(prefix, length, bytes) => prefix in "$!=" && IsLength(length, |bytes|)
    case NullGroup(prefix, length) => prefix in "*~>" && IsLength(length, -1)
    case Group(prefix, length, items) =>
      && prefix in "*~>" && IsLength(length, |items|) && |items| <= 1_000_000
      && forall i :: 0 <= i < |items| ==> IsValid(items[i])
    case Pairs(length, pairs) =>
      IsLength(length, |pairs|) && |pairs| <= 1_000_000 && ArePairsValid(pairs)
    case Attributed(length, attributes, reply) =>
      && IsLength(length, |attributes|) && |attributes| <= 1_000_000
      && ArePairsValid(attributes) && IsValid(reply)
  }

  ghost predicate ArePairsValid(pairs: seq<WireEntry>)
  {
    forall i :: 0 <= i < |pairs| ==> IsPairValid(pairs[i])
  }

  ghost predicate IsPairValid(pair: WireEntry) { IsValid(pair.key) && IsValid(pair.value) }

  function Meaning(w: Wire): RespValue
  {
    match w
    case Line(prefix, payload) => ScalarMeaning(prefix, payload)
    case NullBlob(_, _) => Bulk(None)
    case Blob(prefix, _, bytes) => if prefix == '$' then Bulk(Some(bytes)) else if prefix == '!' then Error(bytes) else Verbatim(bytes)
    case NullGroup(_, _) => NullArray
    case Group(prefix, _, items) => if prefix == '~' then Set(Meanings(items)) else Array(Meanings(items))
    case Pairs(_, pairs) => Map(PairMeanings(pairs))
    case Attributed(_, _, reply) => Meaning(reply)
  }

  function Meanings(ws: seq<Wire>): seq<RespValue>
  {
    if ws == [] then [] else [Meaning(ws[0])] + Meanings(ws[1..])
  }

  function PairMeanings(pairs: seq<WireEntry>): seq<Entry>
  {
    if pairs == [] then [] else [PairMeaning(pairs[0])] + PairMeanings(pairs[1..])
  }

  function PairMeaning(pair: WireEntry): Entry { Entry(Meaning(pair.key), Meaning(pair.value)) }

  function Max(a: nat, b: nat): nat { if a < b then b else a }

  function Height(w: Wire): (h: nat)
    ensures h >= 1
  {
    match w
    case Group(_, _, items) => 1 + HeightOfAll(items)
    case Pairs(_, pairs) => 1 + HeightOfPairs(pairs)
    case Attributed(_, attributes, reply) => 1 + Max(HeightOfPairs(attributes), Height(reply))
    case _ => 1
  }

  function HeightOfAll(ws: seq<Wire>): nat
  {
    if ws == [] then 0 else Max(Height(ws[0]), HeightOfAll(ws[1..]))
  }

  function HeightOfPairs(pairs: seq<WireEntry>): nat
  {
    if pairs == [] then 0 else Max(HeightOfPair(pairs[0]), HeightOfPairs(pairs[1..]))
  }

  function HeightOfPair(pair: WireEntry): nat { Max(Height(pair.key), Height(pair.value)) }

  // ----- what is written in a line

  lemma PrefixesAre(c: char)
    ensures IsBlobPrefix(c) <==> c in "$!="
    ensures IsGroupPrefix(c) <==> c in "*~>"
  {
  }

  lemma DigitsExactly(digits: Bytes)
    ensures digits != [] && AllDigits(digits) <==> AreDigits(digits)
  {
  }

  lemma WholeNumberExactly(payload: Bytes)
    ensures IsIntegerText(payload) <==> IsWholeNumber(payload)
  {
    hide AllDigits, AreDigits;
    DigitsExactly(payload);
    if payload != [] {
      DigitsExactly(payload[1..]);
      if AreDigits(payload) {
        MinusIsNoDigit(payload);
      }
    }
  }

  lemma MinusIsNoDigit(payload: Bytes)
    requires payload != [] && AreDigits(payload)
    ensures payload[0] != '-'
  {
  }

  /** The sign in front of a number, if there is one. */
  function SignIn(length: Bytes): (sign: string)
    ensures sign <= length && (sign == "" || sign == "+" || sign == "-")
  {
    if length != [] && length[0] == '+' then "+" else if length != [] && length[0] == '-' then "-" else ""
  }

  lemma ParsedIsWritten(length: Bytes)
    requires ParseI64(length).Some?
    ensures Writes(length, ParseI64(length).value)
    ensures -0x8000_0000_0000_0000 <= ParseI64(length).value < 0x8000_0000_0000_0000
  {
    hide Value, Decimal;
    var sign := SignIn(length);
    var digits := length[|sign|..];
    var zeros := DigitsArePrinted(digits);
    assert length == sign + digits && length == sign + zeros + Decimal(Value(digits));
  }

  lemma WrittenIsParsed(length: Bytes, n: int)
    requires Writes(length, n) && -0x8000_0000_0000_0000 <= n < 0x8000_0000_0000_0000
    ensures ParseI64(length) == Some(n)
  {
    hide Value, Decimal;
    var sign: string, zeros: string :|
      && (sign == "" || sign == "+" || sign == "-") && AreZeros(zeros)
      && (if sign == "-" then n <= 0 else n >= 0) && length == sign + zeros + Decimal(if n < 0 then -n else n);
    var size := if n < 0 then -n else n;
    DecimalRoundTrip(size);
    ZerosAreNothing(zeros, Decimal(size));
    SignIsFound(length, sign, zeros + Decimal(size));
  }

  lemma SignIsFound(length: Bytes, sign: string, digits: Bytes)
    requires (sign == "" || sign == "+" || sign == "-") && length == sign + digits && digits != [] && AllDigits(digits)
    ensures (length != [] && length[0] == '-') == (sign == "-")
    ensures (if length != [] && (length[0] == '-' || length[0] == '+') then length[1..] else length) == digits
  {
    assert IsDigit(digits[0]);
    if sign == "" {
      assert length == digits;
    } else {
      assert length[1..] == digits;
    }
  }

  lemma ParsedIsLength(length: Bytes)
    requires ParseLength(length).Success?
    ensures IsLengthOf(length, ParseLength(length).value)
  {
    hide ParseI64, Writes;
    ParsedIsWritten(length);
  }

  lemma LengthIsParsed(length: Bytes, n: int)
    requires IsLengthOf(length, n)
    ensures ParseLength(length) == Success(n)
  {
    hide ParseI64, Writes;
    WrittenIsParsed(length, n);
  }

  /** A length is taken exactly when it is written as the number it is taken for. */
  lemma LengthExactly(length: Bytes, n: int)
    ensures ParseLength(length) == Success(n) <==> IsLengthOf(length, n)
  {
    hide ParseI64, IsLengthOf;
    if ParseLength(length) == Success(n) {
      ParsedIsLength(length);
    }
    if IsLengthOf(length, n) {
      LengthIsParsed(length, n);
    }
  }

  // ----- lines

  lemma {:induction false} LineIsMeasured(text: Bytes, rest: Bytes)
    requires '\n' !in text
    ensures LineWidth(text + CRLF + rest) == |text| + 2
  {
    var s := text + CRLF + rest;
    if text == [] {
      assert s[1..][0] == '\n';
    } else {
      assert s[1..] == text[1..] + CRLF + rest;
      LineIsMeasured(text[1..], rest);
    }
  }

  lemma LineIsRead(prefix: char, payload: Bytes, rest: Bytes, remaining: nat)
    requires prefix != '\n' && '\n' !in payload
    requires |payload| + 3 <= MAX_RESPONSE_LINE_BYTES && |payload| + 3 <= remaining
    ensures ReadLine([prefix] + payload + CRLF + rest, remaining) ==
            Success(Reading([prefix] + payload, rest, remaining - (|payload| + 3)))
  {
    var text := [prefix] + payload;
    var s := text + CRLF + rest;
    LineIsMeasured(text, rest);
    hide LineWidth;
    var width := |text| + 2;
    assert s[..width] == text + CRLF;
    assert s[..width - 2] == text && s[width..] == rest;
  }

  /** A value whose line is read goes on with its body. */
  lemma BodyFollows(prefix: char, payload: Bytes, rest: Bytes, remaining: nat, depth: nat)
    requires prefix != '\n' && '\n' !in payload && depth <= MAX_RESPONSE_DEPTH
    requires |payload| + 3 <= MAX_RESPONSE_LINE_BYTES && |payload| + 3 <= remaining
    ensures ReadResponse([prefix] + payload + CRLF + rest, remaining, depth) ==
            ReadBody(prefix, payload, rest, remaining - (|payload| + 3), depth)
  {
    hide ReadLine, ReadBody;
    LineIsRead(prefix, payload, rest, remaining);
    assert ([prefix] + payload)[1..] == payload;
  }

  lemma {:induction false} DecimalWidth(n: nat)
    ensures 1 <= |Decimal(n)| <= n / 100 + 2
  {
    if n >= 10 {
      DecimalWidth(n / 10);
    }
  }

  lemma CountIsRead(n: nat)
    requires n <= MAX_RESPONSE_BYTES
    ensures '\n' !in Decimal(n) && |Decimal(n)| + 3 <= MAX_RESPONSE_LINE_BYTES
    ensures ParseLength(Decimal(n)) == Success(n)
  {
    hide Decimal, Value;
    DecimalRoundTrip(n);
    DecimalWidth(n);
    assert IsDigit(Decimal(n)[0]);
  }

  /** A header is read as its line. */
  lemma HeadIsRead(prefix: char, payload: Bytes, rest: Bytes, remaining: nat, depth: nat)
    requires prefix != '\n' && FitsLine(payload) && depth <= MAX_RESPONSE_DEPTH
    requires |Head(prefix, payload)| <= remaining
    ensures ReadResponse(Head(prefix, payload) + rest, remaining, depth) ==
            ReadBody(prefix, payload, rest, remaining - |Head(prefix, payload)|, depth)
  {
    hide ReadBody, ReadResponse;
    BodyFollows(prefix, payload, rest, remaining, depth);
  }

  lemma BytesAreRead(bytes: Bytes, rest: Bytes, remaining: nat)
    requires |bytes| + 2 <= remaining
    ensures ReadBytes(bytes + CRLF + rest, remaining, |bytes|) ==
            Success(Reading(bytes, rest, remaining - (|bytes| + 2)))
  {
    var s := bytes + CRLF + rest;
    assert s[..|bytes| + 2] == bytes + CRLF;
    assert s[..|bytes|] == bytes && s[|bytes| + 2..] == rest;
  }

  // ----- every reply is read back

  lemma GroupIsNoBlob(prefix: char)
    ensures IsGroupPrefix(prefix) ==> !IsBlobPrefix(prefix)
  {
  }

  lemma LineReadsBack(w: Wire, rest: Bytes, remaining: nat, depth: nat)
    requires w.Line? && IsValid(w) && depth <= MAX_RESPONSE_DEPTH && |EncodeWire(w)| <= remaining
    ensures ReadResponse(EncodeWire(w) + rest, remaining, depth) ==
            Success(Reading(Meaning(w), rest, remaining - |EncodeWire(w)|))
  {
    hide IsUtf8, IsIntegerText, IsWholeNumber, ReadResponse, Head, FitsLine;
    WholeNumberExactly(w.payload);
    HeadIsRead(w.prefix, w.payload, rest, remaining, depth);
  }

  lemma NullReadsBack(w: Wire, rest: Bytes, remaining: nat, depth: nat)
    requires (w.NullBlob? || w.NullGroup?) && IsValid(w) && depth <= MAX_RESPONSE_DEPTH
    requires |EncodeWire(w)| <= remaining
    ensures ReadResponse(EncodeWire(w) + rest, remaining, depth) ==
            Success(Reading(Meaning(w), rest, remaining - |EncodeWire(w)|))
  {
    hide ReadResponse, ParseLength, ReadScalar, Head, FitsLine, Writes, IsBlobPrefix, IsGroupPrefix;
    LengthExactly(w.length, -1);
    PrefixesAre(w.prefix);
    GroupIsNoBlob(w.prefix);
    HeadIsRead(w.prefix, w.length, rest, remaining, depth);
  }

  lemma BlobReadsBack(w: Wire, rest: Bytes, remaining: nat, depth: nat)
    requires w.Blob? && IsValid(w) && depth <= MAX_RESPONSE_DEPTH && |EncodeWire(w)| <= remaining
    ensures ReadResponse(EncodeWire(w) + rest, remaining, depth) ==
            Success(Reading(Meaning(w), rest, remaining - |EncodeWire(w)|))
  {
    hide ReadResponse, ParseLength, ReadBytes, Head, ReadScalar, FitsLine, Writes;
    LengthExactly(w.length, |w.bytes|);
    PrefixesAre(w.prefix);
    var header, tail := Head(w.prefix, w.length), w.bytes + CRLF;
    assert header + tail + rest == header + (tail + rest);
    HeadIsRead(w.prefix, w.length, tail + rest, remaining, depth);
    BytesAreRead(w.bytes, rest, remaining - |header|);
  }

  /** Every well-formed reply is read back, leaving exactly what is behind it. */
  lemma {:induction false} ReadsBack(w: Wire, rest: Bytes, remaining: nat, depth: nat)
    requires IsValid(w) && depth + Height(w) <= MAX_RESPONSE_DEPTH + 1 && |EncodeWire(w)| <= remaining
    ensures ReadResponse(EncodeWire(w) + rest, remaining, depth) ==
            Success(Reading(Meaning(w), rest, remaining - |EncodeWire(w)|))
    decreases w, 1
  {
    match w {
      case Line(_, _) => LineReadsBack(w, rest, remaining, depth);
      case NullBlob(_, _) => NullReadsBack(w, rest, remaining, depth);
      case NullGroup(_, _) => NullReadsBack(w, rest, remaining, depth);
      case Blob(_, _, _) => BlobReadsBack(w, rest, remaining, depth);
      case Group(_, _, _) => GroupReadsBack(w, rest, remaining, depth);
      case Pairs(_, _) => PairsReadBack(w, rest, remaining, depth);
      case Attributed(_, _, _) => AttributedReadsBack(w, rest, remaining, depth);
    }
  }

  lemma {:induction false} GroupReadsBack(w: Wire, rest: Bytes, remaining: nat, depth: nat)
    requires w.Group? && IsValid(w) && depth + Height(w) <= MAX_RESPONSE_DEPTH + 1 && |EncodeWire(w)| <= remaining
    ensures ReadResponse(EncodeWire(w) + rest, remaining, depth) ==
            Success(Reading(Meaning(w), rest, remaining - |EncodeWire(w)|))
    decreases w, 0
  {
    hide ReadResponse, ReadValues, ParseLength, Head, ReadScalar, EncodeAll, Meanings, HeightOfAll, FitsLine, Writes;
    LengthExactly(w.length, |w.items|);
    PrefixesAre(w.prefix);
    GroupIsNoBlob(w.prefix);
    var header, tail := Head(w.prefix, w.length), EncodeAll(w.items);
    assert header + tail + rest == header + (tail + rest);
    HeadIsRead(w.prefix, w.length, tail + rest, remaining, depth);
    AllReadBack(w.items, rest, remaining - |header|, depth + 1);
  }

  lemma {:induction false} PairsReadBack(w: Wire, rest: Bytes, remaining: nat, depth: nat)
    requires w.Pairs? && IsValid(w) && depth + Height(w) <= MAX_RESPONSE_DEPTH + 1 && |EncodeWire(w)| <= remaining
    ensures ReadResponse(EncodeWire(w) + rest, remaining, depth) ==
            Success(Reading(Meaning(w), rest, remaining - |EncodeWire(w)|))
    decreases w, 0
  {
    hide ReadResponse, ReadEntries, ParseLength, Head, ReadScalar, EncodePairs, PairMeanings, HeightOfPairs, FitsLine, Writes;
    LengthExactly(w.length, |w.pairs|);
    var header, tail := Head('%', w.length), EncodePairs(w.pairs);
    assert header + tail + rest == header + (tail + rest);
    HeadIsRead('%', w.length, tail + rest, remaining, depth);
    AllPairsReadBack(w.pairs, rest, remaining - |header|, depth + 1);
  }

  lemma {:induction false} AttributedReadsBack(w: Wire, rest: Bytes, remaining: nat, depth: nat)
    requires w.Attributed? && IsValid(w) && depth + Height(w) <= MAX_RESPONSE_DEPTH + 1 && |EncodeWire(w)| <= remaining
    ensures ReadResponse(EncodeWire(w) + rest, remaining, depth) ==
            Success(Reading(Meaning(w), rest, remaining - |EncodeWire(w)|))
    decreases w, 0
  {
    hide ReadResponse, ReadEntries, ParseLength, Head, ReadScalar, EncodePairs, HeightOfPairs, FitsLine, Writes;
    LengthExactly(w.length, |w.attributes|);
    var header, pairs, reply := Head('|', w.length), EncodePairs(w.attributes), EncodeWire(w.reply);
    assert header + (pairs + reply) + rest == header + (pairs + (reply + rest));
    HeadIsRead('|', w.length, pairs + (reply + rest), remaining, depth);
    AllPairsReadBack(w.attributes, reply + rest, remaining - |header|, depth + 1);
    ReadsBack(w.reply, rest, remaining - |header| - |pairs|, depth + 1);
  }

  lemma {:induction false} AllReadBack(ws: seq<Wire>, rest: Bytes, remaining: nat, depth: nat)
    requires forall i :: 0 <= i < |ws| ==> IsValid(ws[i])
    requires depth + HeightOfAll(ws) <= MAX_RESPONSE_DEPTH + 1
    requires |EncodeAll(ws)| <= remaining
    ensures ReadValues(EncodeAll(ws) + rest, remaining, depth, |ws|) ==
            Success(Reading(Meanings(ws), rest, remaining - |EncodeAll(ws)|))
    decreases ws, 2
  {
    hide ReadResponse, EncodeWire, Meaning, Height, IsValid;
    if ws == [] {
      assert EncodeAll(ws) + rest == rest;
    } else {
      var first, others := EncodeWire(ws[0]), EncodeAll(ws[1..]);
      assert EncodeAll(ws) + rest == first + (others + rest);
      ReadsBack(ws[0], others + rest, remaining, depth);
      AllReadBack(ws[1..], rest, remaining - |first|, depth);
    }
  }

  lemma {:induction false} PairReadsBack(pair: WireEntry, rest: Bytes, remaining: nat, depth: nat)
    requires IsPairValid(pair) && depth + HeightOfPair(pair) <= MAX_RESPONSE_DEPTH + 1
    requires |EncodePair(pair)| <= remaining
    ensures ReadEntry(EncodePair(pair) + rest, remaining, depth) ==
            Success(Reading(PairMeaning(pair), rest, remaining - |EncodePair(pair)|))
    decreases pair, 2
  {
    hide ReadResponse, EncodeWire, Meaning, Height, IsValid;
    var key, value := EncodeWire(pair.key), EncodeWire(pair.value);
    assert EncodePair(pair) + rest == key + (value + rest);
    ReadsBack(pair.key, value + rest, remaining, depth);
    ReadsBack(pair.value, rest, remaining - |key|, depth);
  }

  lemma {:induction false} AllPairsReadBack(pairs: seq<WireEntry>, rest: Bytes, remaining: nat, depth: nat)
    requires ArePairsValid(pairs) && depth + HeightOfPairs(pairs) <= MAX_RESPONSE_DEPTH + 1
    requires |EncodePairs(pairs)| <= remaining
    ensures ReadEntries(EncodePairs(pairs) + rest, remaining, depth, |pairs|) ==
            Success(Reading(PairMeanings(pairs), rest, remaining - |EncodePairs(pairs)|))
    decreases pairs, 2
  {
    hide ReadResponse, EncodePair, PairMeaning, HeightOfPair, IsPairValid;
    if pairs == [] {
      assert EncodePairs(pairs) + rest == rest;
    } else {
      var first, others := EncodePair(pairs[0]), EncodePairs(pairs[1..]);
      assert EncodePairs(pairs) + rest == first + (others + rest);
      PairReadsBack(pairs[0], others + rest, remaining, depth);
      AllPairsReadBack(pairs[1..], rest, remaining - |first|, depth);
    }
  }

  // ----- every successful read is of a reply

  /** The reply takes the front of the stream, within the budget and the depth, and means the value read. */
  ghost predicate IsReplyAt(w: Wire, s: Bytes, remaining: nat, depth: nat, r: Reading<RespValue>)
  {
    && IsValid(w) && depth + Height(w) <= 65
    && s == EncodeWire(w) + r.stream && r.value == Meaning(w) && r.remaining + |EncodeWire(w)| == remaining
  }

  lemma {:induction false} LineEnds(s: Bytes)
    ensures var width := LineWidth(s);
            (forall i :: 0 <= i < width - 1 ==> s[i] != '\n') && (width > 0 && s[width - 1] != '\n' ==> width == |s|)
  {
    if s != [] && s[0] != '\n' {
      LineEnds(s[1..]);
      assert forall i :: 1 <= i < |s| ==> s[i] == s[1..][i - 1];
    }
  }

  lemma LineWasRead(s: Bytes, remaining: nat)
    requires ReadLine(s, remaining).Success?
    ensures var line := ReadLine(s, remaining).value;
            && s == Head(line.value[0], line.value[1..]) + line.stream
            && FitsLine(line.value[1..]) && line.value[0] != '\n'
            && line.remaining + |Head(line.value[0], line.value[1..])| == remaining
  {
    LineEnds(s);
    var width, line := LineWidth(s), ReadLine(s, remaining).value;
    assert s[..width] == line.value + CRLF;
    assert line.value == [line.value[0]] + line.value[1..];
    assert s == s[..width] + s[width..];
  }

  lemma BytesWereRead(s: Bytes, remaining: nat, length: nat)
    requires ReadBytes(s, remaining, length).Success?
    ensures var r := ReadBytes(s, remaining, length).value;
            |r.value| == length && s == r.value + CRLF + r.stream && r.remaining + length + 2 == remaining
  {
    var framed := length + 2;
    assert s[..framed] == s[..length] + CRLF;
    assert s == s[..framed] + s[framed..];
  }

  lemma {:induction false} ReadIsWire(s: Bytes, remaining: nat, depth: nat) returns (w: Wire)
    requires ReadResponse(s, remaining, depth).Success?
    ensures IsReplyAt(w, s, remaining, depth, ReadResponse(s, remaining, depth).value)
    decreases |s|, 0, 0
  {
    hide ReadLine, ReadBody, Head, FitsLine, IsValid, Height, EncodeWire, Meaning, IsReplyAt;
    LineWasRead(s, remaining);
    var line := ReadLine(s, remaining).value;
    w := BodyIsWire(line.value[0], line.value[1..], line.stream, line.remaining, depth, s, remaining);
  }

  /** What stands behind a line, together with the line. */
  lemma {:induction false} BodyIsWire(
    prefix: char, payload: Bytes, s: Bytes, remaining: nat, depth: nat, whole: Bytes, budget: nat)
    returns (w: Wire)
    requires ReadBody(prefix, payload, s, remaining, depth).Success? && depth <= MAX_RESPONSE_DEPTH && FitsLine(payload)
    requires whole == Head(prefix, payload) + s && remaining + |Head(prefix, payload)| == budget
    ensures IsReplyAt(w, whole, budget, depth, ReadBody(prefix, payload, s, remaining, depth).value)
    decreases |s|, 2, 0
  {
    hide Head, FitsLine, ReadBlob, ReadGroup, ReadMap, ReadScalar, IsReplyAt;
    if IsBlobPrefix(prefix) {
      w := BlobIsWire(prefix, payload, s, remaining, depth, whole, budget);
    } else if IsGroupPrefix(prefix) {
      w := GroupIsWire(prefix, payload, s, remaining, depth, whole, budget);
    } else if IsMapPrefix(prefix) {
      w := MapIsWire(prefix, payload, s, remaining, depth, whole, budget);
    } else {
      w := ScalarIsWire(prefix, payload, s, remaining, depth, whole, budget);
    }
  }

  lemma ScalarIsWire(prefix: char, payload: Bytes, s: Bytes, remaining: nat, depth: nat, whole: Bytes, budget: nat)
    returns (w: Wire)
    requires ReadScalar(prefix, payload, s, remaining).Success? && depth <= MAX_RESPONSE_DEPTH && FitsLine(payload)
    requires whole == Head(prefix, payload) + s && remaining + |Head(prefix, payload)| == budget
    ensures IsReplyAt(w, whole, budget, depth, ReadScalar(prefix, payload, s, remaining).value)
  {
    hide Head, FitsLine, IsUtf8, IsIntegerText, IsWholeNumber;
    WholeNumberExactly(payload);
    w := Line(prefix, payload);
  }

  lemma BlobIsWire(prefix: char, payload: Bytes, s: Bytes, remaining: nat, depth: nat, whole: Bytes, budget: nat)
    returns (w: Wire)
    requires ReadBlob(prefix, payload, s, remaining).Success? && depth <= MAX_RESPONSE_DEPTH && FitsLine(payload)
    requires IsBlobPrefix(prefix)
    requires whole == Head(prefix, payload) + s && remaining + |Head(prefix, payload)| == budget
    ensures IsReplyAt(w, whole, budget, depth, ReadBlob(prefix, payload, s, remaining).value)
  {
    hide Head, FitsLine, ParseLength, ReadBytes, Writes;
    var length := ParseLength(payload).value;
    LengthExactly(payload, length);
    PrefixesAre(prefix);
    if length == -1 {
      w := NullBlob(prefix, payload);
    } else {
      BytesWereRead(s, remaining, length);
      var bytes := ReadBytes(s, remaining, length).value;
      w := Blob(prefix, payload, bytes.value);
      assert whole == Head(prefix, payload) + (bytes.value + CRLF) + bytes.stream;
    }
  }

  lemma {:induction false} GroupIsWire(
    prefix: char, payload: Bytes, s: Bytes, remaining: nat, depth: nat, whole: Bytes, budget: nat)
    returns (w: Wire)
    requires ReadGroup(prefix, payload, s, remaining, depth).Success? && depth <= MAX_RESPONSE_DEPTH && FitsLine(payload)
    requires IsGroupPrefix(prefix)
    requires whole == Head(prefix, payload) + s && remaining + |Head(prefix, payload)| == budget
    ensures IsReplyAt(w, whole, budget, depth, ReadGroup(prefix, payload, s, remaining, depth).value)
    decreases |s|, 1, 1
  {
    hide Head, FitsLine, ParseLength, ReadValues, EncodeAll, Meanings, HeightOfAll, Writes;
    var length := ParseLength(payload).value;
    LengthExactly(payload, length);
    PrefixesAre(prefix);
    if length == -1 {
      w := NullGroup(prefix, payload);
    } else {
      var items := ValuesAreWires(s, remaining, depth + 1, length);
      w := Group(prefix, payload, items);
      assert whole == Head(prefix, payload) + EncodeAll(items) + ReadValues(s, remaining, depth + 1, length).value.stream;
    }
  }

  lemma {:induction false} MapIsWire(
    prefix: char, payload: Bytes, s: Bytes, remaining: nat, depth: nat, whole: Bytes, budget: nat)
    returns (w: Wire)
    requires ReadMap(prefix, payload, s, remaining, depth).Success? && depth <= MAX_RESPONSE_DEPTH && FitsLine(payload)
    requires IsMapPrefix(prefix)
    requires whole == Head(prefix, payload) + s && remaining + |Head(prefix, payload)| == budget
    ensures IsReplyAt(w, whole, budget, depth, ReadMap(prefix, payload, s, remaining, depth).value)
    decreases |s|, 1, 1
  {
    hide Head, FitsLine, ParseLength, ReadEntries, ReadResponse, EncodePairs, PairMeanings, HeightOfPairs, ArePairsValid, Writes;
    var length := ParseLength(payload).value;
    LengthExactly(payload, length);
    var pairs := EntriesAreWires(s, remaining, depth + 1, length);
    var entries := ReadEntries(s, remaining, depth + 1, length).value;
    if prefix == '|' {
      var reply := ReadIsWire(entries.stream, entries.remaining, depth + 1);
      w := AttributedIsWire(payload, pairs, reply, s, entries.stream, entries.remaining, remaining, depth, whole, budget);
    } else {
      w := Pairs(payload, pairs);
      assert whole == Head(prefix, payload) + EncodePairs(pairs) + entries.stream;
    }
  }

  lemma AttributedIsWire(
    payload: Bytes, pairs: seq<WireEntry>, reply: Wire, s: Bytes, middle: Bytes, left: nat, remaining: nat, depth: nat,
    whole: Bytes, budget: nat)
    returns (w: Wire)
    requires ReadResponse(middle, left, depth + 1).Success? && IsLength(payload, |pairs|)
    requires |pairs| <= MAX_COLLECTION_ELEMENTS && ArePairsValid(pairs)
    requires s == EncodePairs(pairs) + middle && left + |EncodePairs(pairs)| == remaining
    requires depth + 1 + HeightOfPairs(pairs) <= MAX_RESPONSE_DEPTH + 1
    requires IsReplyAt(reply, middle, left, depth + 1, ReadResponse(middle, left, depth + 1).value)
    requires whole == Head('|', payload) + s && remaining + |Head('|', payload)| == budget
    ensures IsReplyAt(w, whole, budget, depth, ReadResponse(middle, left, depth + 1).value)
  {
    hide Head, IsLength, ReadResponse, EncodePairs, HeightOfPairs, ArePairsValid;
    w := Attributed(payload, pairs, reply);
    var r := ReadResponse(middle, left, depth + 1).value;
    assert whole == Head('|', payload) + (EncodePairs(pairs) + EncodeWire(reply)) + r.stream;
  }

  lemma {:induction false} ValuesAreWires(s: Bytes, remaining: nat, depth: nat, count: nat) returns (ws: seq<Wire>)
    requires ReadValues(s, remaining, depth, count).Success? && depth <= MAX_RESPONSE_DEPTH + 1
    ensures var r := ReadValues(s, remaining, depth, count).value;
            && |ws| == count && (forall i :: 0 <= i < |ws| ==> IsValid(ws[i]))
            && depth + HeightOfAll(ws) <= MAX_RESPONSE_DEPTH + 1
            && s == EncodeAll(ws) + r.stream && r.value == Meanings(ws) && r.remaining + |EncodeAll(ws)| == remaining
    decreases |s|, 1, 0
  {
    hide ReadResponse, EncodeWire, Meaning, Height, IsValid;
    ws := [];
    if count > 0 {
      var first := ReadResponse(s, remaining, depth).value;
      var w := ReadIsWire(s, remaining, depth);
      var others := ValuesAreWires(first.stream, first.remaining, depth, count - 1);
      ws := [w] + others;
      assert ws[1..] == others;
      assert s == EncodeWire(w) + EncodeAll(others) + ReadValues(first.stream, first.remaining, depth, count - 1).value.stream;
    }
  }

  lemma {:induction false} EntriesAreWires(s: Bytes, remaining: nat, depth: nat, count: nat) returns (pairs: seq<WireEntry>)
    requires ReadEntries(s, remaining, depth, count).Success? && depth <= MAX_RESPONSE_DEPTH + 1
    ensures var r := ReadEntries(s, remaining, depth, count).value;
            && |pairs| == count && ArePairsValid(pairs)
            && depth + HeightOfPairs(pairs) <= MAX_RESPONSE_DEPTH + 1
            && s == EncodePairs(pairs) + r.stream && r.value == PairMeanings(pairs)
            && r.remaining + |EncodePairs(pairs)| == remaining
    decreases |s|, 1, 0
  {
    hide ReadResponse, EncodeWire, Meaning, Height, IsValid;
    pairs := [];
    if count > 0 {
      var first := ReadResponse(s, remaining, depth).value;
      var second := ReadResponse(first.stream, first.remaining, depth).value;
      var key := ReadIsWire(s, remaining, depth);
      var value := ReadIsWire(first.stream, first.remaining, depth);
      var others := EntriesAreWires(second.stream, second.remaining, depth, count - 1);
      var pair := WireEntry(key, value);
      pairs := [pair] + others;
      assert pairs[1..] == others;
      assert s == EncodePair(pair) + second.stream;
      assert s == EncodePair(pair) + EncodePairs(others)
               + ReadEntries(second.stream, second.remaining, depth, count - 1).value.stream;
    }
  }

  /** The reader takes exactly the well-formed replies within the limits, each as its value. */
  lemma ReadExactly(s: Bytes, remaining: nat, depth: nat, r: Reading<RespValue>)
    ensures ReadResponse(s, remaining, depth) == Success(r) <==> exists w :: IsReplyAt(w, s, remaining, depth, r)
  {
    hide ReadResponse, EncodeWire, Meaning, Height, IsValid;
    if ReadResponse(s, remaining, depth) == Success(r) {
      var w := ReadIsWire(s, remaining, depth);
    }
    if w :| IsReplyAt(w, s, remaining, depth, r) {
      ReadsBack(w, r.stream, remaining, depth);
    }
  }

  // ----- what is refused

  /** Why a reply is refused at its own line, or for the bytes right behind it. */
  ghost predicate IsRefusedFor(prefix: char, payload: Bytes, s: Bytes, remaining: nat, error: RespError)
  {
    match error
    case InvalidText => prefix in "+-," && !IsText(payload)
    case InvalidInteger => prefix in ":(" && !IsWholeNumber(payload)
    case InvalidBoolean => prefix == '#' && payload != "t" && payload != "f"
    case UnsupportedType => prefix !in "+-,:(#_$!=*~>%|" || (prefix == '_' && payload != "")
    case InvalidLength => prefix in "$!=*~>%|" && forall n :: !IsLengthOf(payload, n)
    case InvalidMapLength => prefix in "%|" && IsLengthOf(payload, -1)
    case TooManyElements => prefix in "*~>%|" && exists n :: n > 1_000_000 && IsLengthOf(payload, n)
    case SizeLimit => prefix in "$!=" && exists n: nat :: n + 2 > remaining && IsLengthOf(payload, n)
    case ConnectionClosed => prefix in "$!=" && exists n: nat :: |s| < n + 2 <= remaining && IsLengthOf(payload, n)
    case InvalidBulk =>
      prefix in "$!=" && exists n: nat ::
        n + 2 <= |s| && n + 2 <= remaining && IsLengthOf(payload, n) && s[n..n + 2] != CRLF
    case _ => false
  }

  lemma ScalarRefusal(prefix: char, payload: Bytes, s: Bytes, remaining: nat)
    requires ReadScalar(prefix, payload, s, remaining).Failure? && prefix !in "$!=*~>%|"
    ensures IsRefusedFor(prefix, payload, s, remaining, ReadScalar(prefix, payload, s, remaining).error)
  {
    hide IsUtf8, IsText, IsIntegerText, IsWholeNumber;
    Utf8Exactly(payload);
    WholeNumberExactly(payload);
  }

  lemma NoLength(payload: Bytes)
    requires ParseLength(payload).Failure?
    ensures ParseLength(payload).error == InvalidLength && forall n :: !IsLengthOf(payload, n)
  {
    NoLengthIsInvalid(payload);
    hide ParseLength, IsLengthOf;
    forall n ensures !IsLengthOf(payload, n) {
      LengthExactly(payload, n);
    }
  }

  lemma NoLengthIsInvalid(payload: Bytes)
    requires ParseLength(payload).Failure?
    ensures ParseLength(payload).error == InvalidLength
  {
    hide ParseI64;
  }

  lemma BlobRefusal(prefix: char, payload: Bytes, s: Bytes, remaining: nat)
    requires ReadBlob(prefix, payload, s, remaining).Failure? && prefix in "$!="
    ensures IsRefusedFor(prefix, payload, s, remaining, ReadBlob(prefix, payload, s, remaining).error)
  {
    hide ParseLength, IsLengthOf;
    if ParseLength(payload).Failure? {
      NoLength(payload);
    } else {
      var n := ParseLength(payload).value;
      LengthExactly(payload, n);
      BytesRefusal(s, remaining, n);
    }
  }

  lemma BytesRefusal(s: Bytes, remaining: nat, n: nat)
    requires ReadBytes(s, remaining, n).Failure?
    ensures match ReadBytes(s, remaining, n).error
            case SizeLimit => n + 2 > remaining
            case ConnectionClosed => |s| < n + 2 <= remaining
            case InvalidBulk => n + 2 <= |s| && n + 2 <= remaining && s[n..n + 2] != CRLF
            case _ => false
  {
    if n + 2 <= |s| {
      assert s[..n + 2][n] == s[n..n + 2][0] && s[..n + 2][n + 1] == s[n..n + 2][1];
    }
  }

  /** A collection is refused for its own line, or else for something in it. */
  lemma CollectionRefusal(prefix: char, payload: Bytes, s: Bytes, remaining: nat, depth: nat)
    requires prefix in "*~>%|" && ReadBody(prefix, payload, s, remaining, depth).Failure?
    ensures var error := ReadBody(prefix, payload, s, remaining, depth).error;
            || IsRefusedFor(prefix, payload, s, remaining, error)
            || exists n: nat :: n <= 1_000_000 && IsLengthOf(payload, n) && IsRefusedInside(prefix, s, remaining, depth + 1, n, error)
  {
    hide ParseLength, IsLengthOf, ReadValues, ReadEntries, ReadResponse, ReadBlob, ReadScalar;
    PrefixesAre(prefix);
    GroupIsNoBlob(prefix);
    if ParseLength(payload).Failure? {
      NoLength(payload);
    } else {
      var n := ParseLength(payload).value;
      LengthExactly(payload, n);
      if 0 <= n <= 1_000_000 {
        assert IsRefusedInside(prefix, s, remaining, depth + 1, n, ReadBody(prefix, payload, s, remaining, depth).error);
      }
    }
  }

  ghost predicate IsRefusedInside(prefix: char, s: Bytes, remaining: nat, depth: nat, n: nat, error: RespError)
  {
    if prefix in "*~>" then ReadValues(s, remaining, depth, n) == Failure(error)
    else if ReadEntries(s, remaining, depth, n).Failure? then ReadEntries(s, remaining, depth, n) == Failure(error)
    else
      var entries := ReadEntries(s, remaining, depth, n).value;
      prefix == '|' && ReadResponse(entries.stream, entries.remaining, depth) == Failure(error)
  }

  /** A refusal says what is wrong: nesting, the line, what the line announces, or what is inside. */
  lemma RefusalsAre(s: Bytes, remaining: nat, depth: nat)
    requires ReadResponse(s, remaining, depth).Failure?
    ensures var error := ReadResponse(s, remaining, depth).error;
            if depth > 64 then error == TooDeep
            else if ReadLine(s, remaining).Failure? then error == InvalidLine
            else
              var line := ReadLine(s, remaining).value;
              var prefix, payload := line.value[0], line.value[1..];
              || IsRefusedFor(prefix, payload, line.stream, line.remaining, error)
              || (prefix in "*~>%|" && exists n: nat ::
                    n <= 1_000_000 && IsLengthOf(payload, n) &&
                    IsRefusedInside(prefix, line.stream, line.remaining, depth + 1, n, error))
  {
    hide ReadBlob, ReadScalar, ReadGroup, ReadMap, IsRefusedFor, IsRefusedInside, IsLengthOf;
    if depth <= 64 && ReadLine(s, remaining).Success? {
      var line := ReadLine(s, remaining).value;
      var prefix, payload := line.value[0], line.value[1..];
      PrefixesAre(prefix);
      GroupIsNoBlob(prefix);
      if prefix in "*~>%|" {
        CollectionRefusal(prefix, payload, line.stream, line.remaining, depth);
      } else if prefix in "$!=" {
        BlobRefusal(prefix, payload, line.stream, line.remaining);
      } else {
        ScalarRefusal(prefix, payload, line.stream, line.remaining);
      }
    }
  }

  // ----- commands

  function CommandTail(arguments: seq<Bytes>): Bytes
  {
    if arguments == [] then []
    else Header('$', |arguments[0]|) + arguments[0] + CRLF + CommandTail(arguments[1..])
  }

  function CommandBytes(arguments: seq<Bytes>): Bytes { Header('*', |arguments|) + CommandTail(arguments) }

  method EncodeCommand(arguments: seq<Bytes>) returns (request: Bytes)
    ensures request == CommandBytes(arguments)
  {
    hide Header;
    request := Header('*', |arguments|);
    for i := 0 to |arguments|
      invariant request + CommandTail(arguments[i..]) == CommandBytes(arguments)
    {
      var argument := arguments[i];
      assert arguments[i..][0] == argument && arguments[i..][1..] == arguments[i + 1..];
      CommandTailStep(request, argument, CommandTail(arguments[i + 1..]));
      request := request + Header('$', |argument|);
      request := request + argument;
      request := request + CRLF;
    }
    assert request + [] == request;
  }

  lemma CommandTailStep(request: Bytes, argument: Bytes, tail: Bytes)
    ensures request + (Header('$', |argument|) + argument + CRLF + tail) ==
            request + Header('$', |argument|) + argument + CRLF + tail
  {
    hide Header;
  }

  function Blobs(arguments: seq<Bytes>): (ws: seq<Wire>)
    ensures |ws| == |arguments| && forall i :: 0 <= i < |ws| ==> ws[i] == Blob('$', Decimal(|arguments[i]|), arguments[i])
  {
    seq(|arguments|, i requires 0 <= i < |arguments| => Blob('$', Decimal(|arguments[i]|), arguments[i]))
  }

  function BulkStrings(arguments: seq<Bytes>): (values: seq<RespValue>)
    ensures |values| == |arguments|
    ensures forall i :: 0 <= i < |values| ==> values[i] == Bulk(Some(arguments[i]))
  {
    seq(|arguments|, i requires 0 <= i < |arguments| => Bulk(Some(arguments[i])))
  }

  lemma {:induction false} CommandTailIsBlobs(arguments: seq<Bytes>)
    ensures CommandTail(arguments) == EncodeAll(Blobs(arguments))
    ensures Meanings(Blobs(arguments)) == BulkStrings(arguments)
    ensures HeightOfAll(Blobs(arguments)) <= 1
  {
    hide Head;
    if arguments != [] {
      var first, others := Blobs(arguments)[0], arguments[1..];
      assert Blobs(arguments)[1..] == Blobs(others);
      assert BulkStrings(arguments) == [Bulk(Some(arguments[0]))] + BulkStrings(others);
      CommandTailIsBlobs(others);
      assert EncodeWire(first) == Header('$', |arguments[0]|) + (arguments[0] + CRLF);
      assert EncodeWire(first) + CommandTail(others) == CommandTail(arguments);
    }
  }

  /** An encoded command followed by anything reads back as the array of its arguments, leaving the rest. */
  lemma CommandRoundTrip(arguments: seq<Bytes>, rest: Bytes)
    requires |arguments| <= 1_000_000 && |CommandBytes(arguments)| <= 67_108_864
    ensures ReadResponse(CommandBytes(arguments) + rest, MAX_RESPONSE_BYTES, 0) ==
            Success(Reading(Array(BulkStrings(arguments)), rest, MAX_RESPONSE_BYTES - |CommandBytes(arguments)|))
  {
    hide ReadResponse, IsValid, EncodeWire, Meaning, Height, CommandBytes;
    CommandIsValid(arguments);
    CommandIsGroup(arguments);
    ReadsBack(Group('*', Decimal(|arguments|), Blobs(arguments)), rest, MAX_RESPONSE_BYTES, 0);
  }

  lemma CommandIsGroup(arguments: seq<Bytes>)
    ensures var w := Group('*', Decimal(|arguments|), Blobs(arguments));
            EncodeWire(w) == CommandBytes(arguments) && Meaning(w) == Array(BulkStrings(arguments)) && Height(w) <= 2
  {
    hide EncodeAll, Meanings, HeightOfAll, CommandTail, Head;
    CommandTailIsBlobs(arguments);
  }

  lemma CommandIsValid(arguments: seq<Bytes>)
    requires |arguments| <= 1_000_000 && |CommandBytes(arguments)| <= 67_108_864
    ensures IsValid(Group('*', Decimal(|arguments|), Blobs(arguments)))
  {
    hide ParseLength, CommandTail, Decimal, Writes;
    CountIsRead(|arguments|);
    LengthExactly(Decimal(|arguments|), |arguments|);
    forall i | 0 <= i < |arguments| ensures IsValid(Blobs(arguments)[i]) {
      ArgumentFits(arguments, i);
      CountIsRead(|arguments[i]|);
      LengthExactly(Decimal(|arguments[i]|), |arguments[i]|);
    }
  }

  lemma {:induction false} ArgumentFits(arguments: seq<Bytes>, i: nat)
    requires i < |arguments|
    ensures |arguments[i]| <= |CommandTail(arguments)|
  {
    hide Header;
    if i > 0 {
      ArgumentFits(arguments[1..], i - 1);
    }
  }

  // ----- every successful read is paid for

  function Nodes(v: RespValue): (n: nat)
    ensures n >= 1
  {
    match v
    case Array(items) => 1 + NodesOfAll(items)
    case Set(members) => 1 + NodesOfAll(members)
    case Map(entries) => 1 + NodesOfEntries(entries)
    case _ => 1
  }

  function NodesOfAll(values: seq<RespValue>): nat
  {
    if values == [] then 0 else Nodes(values[0]) + NodesOfAll(values[1..])
  }

  function NodesOfEntries(entries: seq<Entry>): nat
  {
    if entries == [] then 0 else NodesOfEntry(entries[0]) + NodesOfEntries(entries[1..])
  }

  function NodesOfEntry(entry: Entry): nat { Nodes(entry.key) + Nodes(entry.value) }

  function Depth(v: RespValue): (d: nat)
    ensures d >= 1
  {
    match v
    case Array(items) => 1 + DepthOfAll(items)
    case Set(members) => 1 + DepthOfAll(members)
    case Map(entries) => 1 + DepthOfEntries(entries)
    case _ => 1
  }

  function DepthOfAll(values: seq<RespValue>): nat
  {
    if values == [] then 0 else Max(Depth(values[0]), DepthOfAll(values[1..]))
  }

  function DepthOfEntries(entries: seq<Entry>): nat
  {
    if entries == [] then 0 else Max(DepthOfEntry(entries[0]), DepthOfEntries(entries[1..]))
  }

  function DepthOfEntry(entry: Entry): nat { Max(Depth(entry.key), Depth(entry.value)) }

  /** What was taken off the stream is what was taken off the budget, and what is left is the stream's end. */
  predicate Consumed(s: Bytes, remaining: nat, left: Bytes, budget: nat, cost: nat)
  {
    && cost + |left| <= |s| && left == s[|s| - |left|..]
    && budget <= remaining && remaining - budget == |s| - |left|
  }

  lemma ConsumedTwice(s: Bytes, remaining: nat, middle: Bytes, between: nat, left: Bytes, budget: nat, a: nat, b: nat)
    requires Consumed(s, remaining, middle, between, a) && Consumed(middle, between, left, budget, b)
    ensures Consumed(s, remaining, left, budget, a + b)
  {
  }

  lemma LineConsumes(s: Bytes, remaining: nat)
    requires ReadLine(s, remaining).Success?
    ensures var r := ReadLine(s, remaining).value;
            Consumed(s, remaining, r.stream, r.remaining, 3)
  {
  }

  lemma BlobConsumes(prefix: char, payload: Bytes, s: Bytes, remaining: nat)
    requires ReadBlob(prefix, payload, s, remaining).Success?
    ensures var r := ReadBlob(prefix, payload, s, remaining).value;
            Consumed(s, remaining, r.stream, r.remaining, 0) && Nodes(r.value) == 1 && Depth(r.value) == 1
  {
    hide ParseLength;
  }

  lemma ScalarIsOneNode(prefix: char, payload: Bytes, s: Bytes, remaining: nat)
    requires ReadScalar(prefix, payload, s, remaining).Success?
    ensures var v := ReadScalar(prefix, payload, s, remaining).value.value;
            Nodes(v) == 1 && Depth(v) == 1
  {
    hide IsUtf8, IsIntegerText;
  }

  /**
   A successful read takes exactly what the budget shrinks by, at least three bytes for each decoded node,
   and nothing it builds is nested deeper than the limit.
   */
  lemma {:induction false} ReadIsPaidFor(s: Bytes, remaining: nat, depth: nat)
    requires ReadResponse(s, remaining, depth).Success?
    ensures var r := ReadResponse(s, remaining, depth).value;
            && Consumed(s, remaining, r.stream, r.remaining, 3 * Nodes(r.value))
            && depth + Depth(r.value) <= MAX_RESPONSE_DEPTH + 1
    decreases |s|, 0, 0
  {
    hide ReadLine, ReadBlob, ReadScalar, ReadGroup, ReadMap, Nodes, Depth, Consumed, ReadResponse;
    ResponseIsBody(s, remaining, depth);
    LineConsumes(s, remaining);
    var l := ReadLine(s, remaining).value;
    var prefix, payload := l.value[0], l.value[1..];
    // What follows the line pays for all but the first node.
    if IsBlobPrefix(prefix) {
      BlobConsumes(prefix, payload, l.stream, l.remaining);
    } else if IsGroupPrefix(prefix) {
      GroupIsPaidFor(prefix, payload, l.stream, l.remaining, depth);
    } else if IsMapPrefix(prefix) {
      MapIsPaidFor(prefix, payload, l.stream, l.remaining, depth);
    } else {
      ScalarIsOneNode(prefix, payload, l.stream, l.remaining);
      NothingConsumed(l.stream, l.remaining);
    }
    var r := ReadResponse(s, remaining, depth).value;
    ConsumedTwice(s, remaining, l.stream, l.remaining, r.stream, r.remaining, 3, 3 * (Nodes(r.value) - 1));
  }

  lemma ResponseIsBody(s: Bytes, remaining: nat, depth: nat)
    requires ReadResponse(s, remaining, depth).Success?
    ensures depth <= MAX_RESPONSE_DEPTH && ReadLine(s, remaining).Success?
    ensures var l := ReadLine(s, remaining).value;
            ReadResponse(s, remaining, depth) == ReadBody(l.value[0], l.value[1..], l.stream, l.remaining, depth)
  {
    hide ReadLine, ReadBody;
  }

  lemma {:induction false} GroupIsPaidFor(prefix: char, payload: Bytes, s: Bytes, remaining: nat, depth: nat)
    requires ReadGroup(prefix, payload, s, remaining, depth).Success? && depth <= MAX_RESPONSE_DEPTH
    ensures var r := ReadGroup(prefix, payload, s, remaining, depth).value;
            && Consumed(s, remaining, r.stream, r.remaining, 3 * (Nodes(r.value) - 1))
            && depth + Depth(r.value) <= MAX_RESPONSE_DEPTH + 1
    decreases |s|, 2, 0
  {
    hide ReadValues, ParseLength, NodesOfAll, DepthOfAll;
    var length := ParseLength(payload).value;
    if length >= 0 {
      ValuesArePaidFor(s, remaining, depth + 1, length);
    }
  }

  lemma {:induction false} MapIsPaidFor(prefix: char, payload: Bytes, s: Bytes, remaining: nat, depth: nat)
    requires ReadMap(prefix, payload, s, remaining, depth).Success? && depth <= MAX_RESPONSE_DEPTH
    ensures var r := ReadMap(prefix, payload, s, remaining, depth).value;
            && Consumed(s, remaining, r.stream, r.remaining, 3 * (Nodes(r.value) - 1))
            && depth + Depth(r.value) <= MAX_RESPONSE_DEPTH + 1
    decreases |s|, 2, 0
  {
    hide ReadEntries, ReadResponse, ParseLength, NodesOfEntries, DepthOfEntries;
    var length := ParseLength(payload).value;
    EntriesArePaidFor(s, remaining, depth + 1, length);
    var e := ReadEntries(s, remaining, depth + 1, length).value;
    if prefix == '|' {
      ReadIsPaidFor(e.stream, e.remaining, depth + 1);
      var r := ReadResponse(e.stream, e.remaining, depth + 1).value;
      ConsumedTwice(s, remaining, e.stream, e.remaining, r.stream, r.remaining, 3 * NodesOfEntries(e.value), 3 * Nodes(r.value));
    }
  }

  lemma {:induction false} ValuesArePaidFor(s: Bytes, remaining: nat, depth: nat, count: nat)
    requires ReadValues(s, remaining, depth, count).Success? && depth <= MAX_RESPONSE_DEPTH + 1
    ensures var r := ReadValues(s, remaining, depth, count).value;
            && Consumed(s, remaining, r.stream, r.remaining, 3 * NodesOfAll(r.value))
            && depth + DepthOfAll(r.value) <= MAX_RESPONSE_DEPTH + 1
    decreases |s|, 1, count
  {
    hide ReadResponse, Nodes, Depth, Consumed;
    if count == 0 {
      NothingConsumed(s, remaining);
    } else {
      ReadIsPaidFor(s, remaining, depth);
      var v := ReadResponse(s, remaining, depth).value;
      ValuesArePaidFor(v.stream, v.remaining, depth, count - 1);
      var r := ReadValues(v.stream, v.remaining, depth, count - 1).value;
      ConsumedTwice(s, remaining, v.stream, v.remaining, r.stream, r.remaining, 3 * Nodes(v.value), 3 * NodesOfAll(r.value));
      assert ([v.value] + r.value)[1..] == r.value;
    }
  }

  lemma NothingConsumed(s: Bytes, remaining: nat)
    ensures Consumed(s, remaining, s, remaining, 0)
  {
  }

  lemma {:induction false} EntryIsPaidFor(s: Bytes, remaining: nat, depth: nat)
    requires ReadEntry(s, remaining, depth).Success? && depth <= MAX_RESPONSE_DEPTH + 1
    ensures var r := ReadEntry(s, remaining, depth).value;
            && Consumed(s, remaining, r.stream, r.remaining, 3 * NodesOfEntry(r.value))
            && depth + DepthOfEntry(r.value) <= MAX_RESPONSE_DEPTH + 1
    decreases |s|, 1, 0
  {
    hide ReadResponse, Nodes, Depth, Consumed;
    ReadIsPaidFor(s, remaining, depth);
    var key := ReadResponse(s, remaining, depth).value;
    ReadIsPaidFor(key.stream, key.remaining, depth);
    var value := ReadResponse(key.stream, key.remaining, depth).value;
    ConsumedTwice(s, remaining, key.stream, key.remaining, value.stream, value.remaining,
                  3 * Nodes(key.value), 3 * Nodes(value.value));
  }

  lemma {:induction false} EntriesArePaidFor(s: Bytes, remaining: nat, depth: nat, count: nat)
    requires ReadEntries(s, remaining, depth, count).Success? && depth <= MAX_RESPONSE_DEPTH + 1
    ensures var r := ReadEntries(s, remaining, depth, count).value;
            && Consumed(s, remaining, r.stream, r.remaining, 3 * NodesOfEntries(r.value))
            && depth + DepthOfEntries(r.value) <= MAX_RESPONSE_DEPTH + 1
    decreases |s|, 1, count
  {
    hide ReadResponse, NodesOfEntry, DepthOfEntry, Consumed;
    if count == 0 {
      NothingConsumed(s, remaining);
    } else {
      EntryIsPaidFor(s, remaining, depth);
      var e := ReadEntry(s, remaining, depth).value;
      EntriesArePaidFor(e.stream, e.remaining, depth, count - 1);
      var r := ReadEntries(e.stream, e.remaining, depth, count - 1).value;
      ConsumedTwice(s, remaining, e.stream, e.remaining, r.stream, r.remaining,
                    3 * NodesOfEntry(e.value), 3 * NodesOfEntries(r.value));
      assert ([e.value] + r.value)[1..] == r.value;
    }
  }
}
