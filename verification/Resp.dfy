/**
 The RESP reader: one reply at a time from a byte stream, under a byte budget, a depth limit and an
 element limit. `Read` says what the reader's methods do to the stream and the budget.
 */
module Resp {
  import opened Wrappers
  import opened Text
  import opened Utf8

  const MAX_RESPONSE_BYTES: nat := 64 * 1024 * 1024
  const MAX_RESPONSE_DEPTH: nat := 64
  const MAX_RESPONSE_LINE_BYTES: nat := 1024 * 1024
  const MAX_COLLECTION_ELEMENTS: nat := 1_000_000
  const I64_LIMIT: nat := 0x8000_0000_0000_0000

  datatype Entry = Entry(key: RespValue, value: RespValue)

  datatype RespValue =
    | Simple(text: Bytes)
    | Error(text: Bytes)
    | Integer(text: Bytes)
    | Bulk(bytes: Option<Bytes>)
    | Array(items: seq<RespValue>)
    | NullArray
    | Boolean(flag: bool)
    | Double(text: Bytes)
    | BigNumber(text: Bytes)
    | Verbatim(content: Bytes)
    | Map(entries: seq<Entry>)
    | Set(members: seq<RespValue>)
    | Null

  datatype RespError =
    | TooDeep | InvalidLine | InvalidText | InvalidInteger | InvalidLength | InvalidBoolean
    | InvalidMapLength | TooManyElements | SizeLimit | ConnectionClosed | InvalidBulk | UnsupportedType

  /** A value read, what is left of the stream, and what is left of the budget. */
  datatype Reading<T> = Reading(value: T, stream: Bytes, remaining: nat)

  type Read<T> = Result<Reading<T>, RespError>

  // ----- lines, lengths and payloads

  /** The bytes up to and including the first newline, or all of them. */
  function LineWidth(s: Bytes): (width: nat)
    ensures width <= |s|
  {
    if s == [] then 0 else if s[0] == '\n' then 1 else 1 + LineWidth(s[1..])
  }

  predicate EndsWithCrlf(s: Bytes) { |s| >= 2 && s[|s| - 2] == '\r' && s[|s| - 1] == '\n' }

  function ReadLine(s: Bytes, remaining: nat): (r: Read<Bytes>)
    ensures r.Success? ==> |r.value.value| >= 1 && |r.value.stream| < |s|
  {
    var width := LineWidth(s);
    if width < 3 || width > MAX_RESPONSE_LINE_BYTES || width > remaining || !EndsWithCrlf(s[..width])
    then Failure(InvalidLine)
    else Success(Reading(s[..width - 2], s[width..], remaining - width))
  }

  function ReadBytes(s: Bytes, remaining: nat, length: nat): (r: Read<Bytes>)
    ensures r.Success? ==> |r.value.stream| < |s|
  {
    var framed := length + 2;
    if framed > remaining then Failure(SizeLimit)
    else if framed > |s| then Failure(ConnectionClosed)
    else if !EndsWithCrlf(s[..framed]) then Failure(InvalidBulk)
    else Success(Reading(s[..length], s[framed..], remaining - framed))
  }

  /** Rust's parse::<i64>: an optional sign, digits, and a value that fits. */
  function ParseI64(s: Bytes): Option<int>
  {
    var negative := s != [] && s[0] == '-';
    var digits := if s != [] && (s[0] == '-' || s[0] == '+') then s[1..] else s;
    if digits == [] || !AllDigits(digits) then None
    else
      var magnitude: int := Value(digits);
      if negative && magnitude <= I64_LIMIT then Some(-magnitude)
      else if !negative && magnitude < I64_LIMIT then Some(magnitude)
      else None
  }

  /** A length; -1 stands for null. */
  function ParseLength(payload: Bytes): (r: Result<int, RespError>)
    ensures r.Success? ==> r.value >= -1
  {
    match ParseI64(payload)
    case None => Failure(InvalidLength)
    case Some(value) => if value < -1 then Failure(InvalidLength) else Success(value)
  }

  predicate IsIntegerText(payload: Bytes)
  {
    var digits := if payload != [] && payload[0] == '-' then payload[1..] else payload;
    digits != [] && AllDigits(digits)
  }

  // ----- values

  function OnlyValue(value: RespValue, s: Bytes, remaining: nat): Read<RespValue>
  {
    Success(Reading(value, s, remaining))
  }

  function Checked(ok: bool, error: RespError, value: RespValue, s: Bytes, remaining: nat): Read<RespValue>
  {
    if ok then OnlyValue(value, s, remaining) else Failure(error)
  }

  function BlobValue(prefix: char, bytes: Bytes): RespValue
  {
    if prefix == '!' then Error(bytes) else if prefix == '=' then Verbatim(bytes) else Bulk(Some(bytes))
  }

  function GroupValue(prefix: char, values: seq<RespValue>): RespValue
  {
    if prefix == '~' then Set(values) else Array(values)
  }

  function ReadBlob(prefix: char, payload: Bytes, s: Bytes, remaining: nat): (r: Read<RespValue>)
    ensures r.Success? ==> |r.value.stream| <= |s|
  {
    match ParseLength(payload)
    case Failure(error) => Failure(error)
    case Success(length) =>
      if length == -1 then OnlyValue(Bulk(None), s, remaining)
      else
        match ReadBytes(s, remaining, length)
        case Failure(error) => Failure(error)
        case Success(bytes) => OnlyValue(BlobValue(prefix, bytes.value), bytes.stream, bytes.remaining)
  }

  predicate IsBlobPrefix(c: char) { c == '$' || c == '!' || c == '=' }

  predicate IsGroupPrefix(c: char) { c == '*' || c == '~' || c == '>' }

  predicate IsMapPrefix(c: char) { c == '%' || c == '|' }

  /** Replies that end with their line. */
  function ReadScalar(prefix: char, payload: Bytes, s: Bytes, remaining: nat): (r: Read<RespValue>)
    ensures r.Success? ==> r.value.stream == s && r.value.remaining == remaining
  {
    match prefix
    case '+' => Checked(IsUtf8(payload), InvalidText, Simple(payload), s, remaining)
    case '-' => Checked(IsUtf8(payload), InvalidText, Error(payload), s, remaining)
    case ':' => Checked(IsIntegerText(payload), InvalidInteger, Integer(payload), s, remaining)
    case ',' => Checked(IsUtf8(payload), InvalidText, Double(payload), s, remaining)
    case '(' => Checked(IsIntegerText(payload), InvalidInteger, BigNumber(payload), s, remaining)
    case '#' => Checked(payload == "t" || payload == "f", InvalidBoolean, Boolean(payload == "t"), s, remaining)
    case '_' => Checked(payload == "", UnsupportedType, Null, s, remaining)
    case _ => Failure(UnsupportedType)
  }

  function ReadResponse(s: Bytes, remaining: nat, depth: nat): (r: Read<RespValue>)
    ensures r.Success? ==> |r.value.stream| < |s|
    decreases |s|, 0, 0
  {
    if depth > MAX_RESPONSE_DEPTH then Failure(TooDeep)
    else
      match ReadLine(s, remaining)
      case Failure(error) => Failure(error)
      case Success(line) => ReadBody(line.value[0], line.value[1..], line.stream, line.remaining, depth)
  }

  function ReadBody(prefix: char, payload: Bytes, s: Bytes, remaining: nat, depth: nat): (r: Read<RespValue>)
    ensures r.Success? ==> |r.value.stream| <= |s|
    decreases |s|, 2, 0
  {
    if IsBlobPrefix(prefix) then ReadBlob(prefix, payload, s, remaining)
    else if IsGroupPrefix(prefix) then ReadGroup(prefix, payload, s, remaining, depth)
    else if IsMapPrefix(prefix) then ReadMap(prefix, payload, s, remaining, depth)
    else ReadScalar(prefix, payload, s, remaining)
  }

  function ReadGroup(prefix: char, payload: Bytes, s: Bytes, remaining: nat, depth: nat): (r: Read<RespValue>)
    ensures r.Success? ==> |r.value.stream| <= |s|
    decreases |s|, 1, 1
  {
    match ParseLength(payload)
    case Failure(error) => Failure(error)
    case Success(length) =>
      if length == -1 then OnlyValue(NullArray, s, remaining)
      else if length > MAX_COLLECTION_ELEMENTS then Failure(TooManyElements)
      else
        match ReadValues(s, remaining, depth + 1, length)
        case Failure(error) => Failure(error)
        case Success(values) => OnlyValue(GroupValue(prefix, values.value), values.stream, values.remaining)
  }

  function ReadMap(prefix: char, payload: Bytes, s: Bytes, remaining: nat, depth: nat): (r: Read<RespValue>)
    ensures r.Success? ==> |r.value.stream| <= |s|
    decreases |s|, 1, 1
  {
    match ParseLength(payload)
    case Failure(error) => Failure(error)
    case Success(length) =>
      if length < 0 then Failure(InvalidMapLength)
      else if length > MAX_COLLECTION_ELEMENTS then Failure(TooManyElements)
      else
        match ReadEntries(s, remaining, depth + 1, length)
        case Failure(error) => Failure(error)
        case Success(entries) =>
          // An attribute announces metadata; the reply itself follows.
          if prefix == '|' then ReadResponse(entries.stream, entries.remaining, depth + 1)
          else OnlyValue(Map(entries.value), entries.stream, entries.remaining)
  }

  function ReadValues(s: Bytes, remaining: nat, depth: nat, count: nat): (r: Read<seq<RespValue>>)
    ensures r.Success? ==> |r.value.stream| <= |s|
    decreases |s|, 1, 0
  {
    if count == 0 then Success(Reading([], s, remaining))
    else
      match ReadResponse(s, remaining, depth)
      case Failure(error) => Failure(error)
      case Success(first) =>
        match ReadValues(first.stream, first.remaining, depth, count - 1)
        case Failure(error) => Failure(error)
        case Success(rest) => Success(Reading([first.value] + rest.value, rest.stream, rest.remaining))
  }

  function ReadEntries(s: Bytes, remaining: nat, depth: nat, count: nat): (r: Read<seq<Entry>>)
    ensures r.Success? ==> |r.value.stream| <= |s|
    decreases |s|, 1, 0
  {
    if count == 0 then Success(Reading([], s, remaining))
    else
      match ReadResponse(s, remaining, depth)
      case Failure(error) => Failure(error)
      case Success(key) =>
        match ReadResponse(key.stream, key.remaining, depth)
        case Failure(error) => Failure(error)
        case Success(value) =>
          match ReadEntries(value.stream, value.remaining, depth, count - 1)
          case Failure(error) => Failure(error)
          case Success(rest) =>
            Success(Reading([Entry(key.value, value.value)] + rest.value, rest.stream, rest.remaining))
  }

  // ----- the reader

  /** A result and a new state are those of a reading; after an error the stream may be anywhere further on. */
  predicate Took<T(==)>(got: Result<T, RespError>, stream: Bytes, remaining: nat, reading: Read<T>, before: Bytes)
  {
    match reading
    case Failure(error) => got == Failure(error) && |stream| <= |before|
    case Success(r) => got == Success(r.value) && stream == r.stream && remaining == r.remaining
  }

  function BehindValues(values: seq<RespValue>, rest: Read<seq<RespValue>>): Read<seq<RespValue>>
  {
    match rest
    case Failure(error) => Failure(error)
    case Success(r) => Success(Reading(values + r.value, r.stream, r.remaining))
  }

  function BehindEntries(entries: seq<Entry>, rest: Read<seq<Entry>>): Read<seq<Entry>>
  {
    match rest
    case Failure(error) => Failure(error)
    case Success(r) => Success(Reading(entries + r.value, r.stream, r.remaining))
  }

  lemma BehindNoValues(rest: Read<seq<RespValue>>)
    ensures BehindValues([], rest) == rest
  {
    if rest.Success? {
      assert [] + rest.value.value == rest.value.value;
    }
  }

  /** Reading on behind the values so far: the next value, then the others. */
  lemma ValuesStep(values: seq<RespValue>, s: Bytes, remaining: nat, depth: nat, count: nat)
    requires count > 0
    ensures BehindValues(values, ReadValues(s, remaining, depth, count)) ==
            match ReadResponse(s, remaining, depth)
            case Failure(error) => Failure(error)
            case Success(v) => BehindValues(values + [v.value], ReadValues(v.stream, v.remaining, depth, count - 1))
  {
    hide ReadResponse;
    match ReadResponse(s, remaining, depth) {
      case Failure(_) =>
      case Success(v) =>
        var rest := ReadValues(v.stream, v.remaining, depth, count - 1);
        if rest.Success? {
          assert values + ([v.value] + rest.value.value) == values + [v.value] + rest.value.value;
        }
    }
  }

  lemma BehindNoEntries(rest: Read<seq<Entry>>)
    ensures BehindEntries([], rest) == rest
  {
    if rest.Success? {
      assert [] + rest.value.value == rest.value.value;
    }
  }

  /** What reading one more key and value gives. */
  function ReadEntry(s: Bytes, remaining: nat, depth: nat): (r: Read<Entry>)
    ensures r.Success? ==> |r.value.stream| < |s|
  {
    match ReadResponse(s, remaining, depth)
    case Failure(error) => Failure(error)
    case Success(key) =>
      match ReadResponse(key.stream, key.remaining, depth)
      case Failure(error) => Failure(error)
      case Success(value) => Success(Reading(Entry(key.value, value.value), value.stream, value.remaining))
  }

  lemma EntriesStep(entries: seq<Entry>, s: Bytes, remaining: nat, depth: nat, count: nat)
    requires count > 0
    ensures BehindEntries(entries, ReadEntries(s, remaining, depth, count)) ==
            match ReadEntry(s, remaining, depth)
            case Failure(error) => Failure(error)
            case Success(e) => BehindEntries(entries + [e.value], ReadEntries(e.stream, e.remaining, depth, count - 1))
  {
    hide ReadResponse;
    match ReadEntry(s, remaining, depth) {
      case Failure(_) =>
      case Success(e) =>
        var rest := ReadEntries(e.stream, e.remaining, depth, count - 1);
        if rest.Success? {
          assert entries + ([e.value] + rest.value.value) == entries + [e.value] + rest.value.value;
        }
    }
  }

  lemma NoValuesLeft(values: seq<RespValue>, s: Bytes, remaining: nat, depth: nat)
    ensures BehindValues(values, ReadValues(s, remaining, depth, 0)) == Success(Reading(values, s, remaining))
  {
    assert values + [] == values;
  }

  lemma NoEntriesLeft(entries: seq<Entry>, s: Bytes, remaining: nat, depth: nat)
    ensures BehindEntries(entries, ReadEntries(s, remaining, depth, 0)) == Success(Reading(entries, s, remaining))
  {
    assert entries + [] == entries;
  }

  /** One connection while a reply is read: the bytes still to come and the budget still left. */
  class Connection {
    var stream: Bytes
    var remaining: nat

    constructor (stream: Bytes)
      ensures this.stream == stream && remaining == 67_108_864
    {
      this.stream := stream;
      remaining := MAX_RESPONSE_BYTES;
    }

    method ReadProtocolLine() returns (line: Result<Bytes, RespError>)
      modifies this
      ensures Took(line, stream, remaining, ReadLine(old(stream), old(remaining)), old(stream))
    {
      var width := 0;
      while width < |stream| && (width == 0 || stream[width - 1] != '\n')
        invariant width <= |stream|
        invariant LineWidth(stream) == if width > 0 && stream[width - 1] == '\n' then width else width + LineWidth(stream[width..])
      {
        assert stream[width..][0] == stream[width] && stream[width..][1..] == stream[width + 1..];
        width := width + 1;
      }
      var text := stream[..width];
      stream := stream[width..];
      if |text| < 3 || |text| > MAX_RESPONSE_LINE_BYTES || |text| > remaining || !EndsWithCrlf(text) {
        return Failure(InvalidLine);
      }
      remaining := remaining - |text|;
      assert text[..width - 2] == old(stream)[..width - 2];
      line := Success(text[..|text| - 2]);
    }

    method ReadProtocolBytes(length: nat) returns (bytes: Result<Bytes, RespError>)
      modifies this
      ensures Took(bytes, stream, remaining, ReadBytes(old(stream), old(remaining), length), old(stream))
    {
      var framedLength := length + 2;
      if framedLength > remaining {
        return Failure(SizeLimit);
      }
      if framedLength > |stream| {
        return Failure(ConnectionClosed);
      }
      var framed := stream[..framedLength];
      stream := stream[framedLength..];
      if !EndsWithCrlf(framed) {
        return Failure(InvalidBulk);
      }
      remaining := remaining - framedLength;
      assert framed[..length] == old(stream)[..length];
      bytes := Success(framed[..length]);
    }
  
    /** Reads one value; the recursion ends because every value takes at least its line. */
    method ReadValue(depth: nat) returns (value: Result<RespValue, RespError>)
      modifies this
      ensures Took(value, stream, remaining, ReadResponse(old(stream), old(remaining), depth), old(stream))
      decreases |stream|, 0
    {
      hide ReadLine, ReadBytes, ReadScalar, ParseLength, ReadGroup, ReadMap, ReadBlob;
      if depth > MAX_RESPONSE_DEPTH {
        return Failure(TooDeep);
      }
      var line := ReadProtocolLine();
      if line.Failure? {
        return Failure(line.error);
      }
      var prefix, payload := line.value[0], line.value[1..];
      if IsBlobPrefix(prefix) {
        value := ReadBlobReply(prefix, payload);
      } else if IsGroupPrefix(prefix) {
        value := ReadGroupReply(prefix, payload, depth);
      } else if IsMapPrefix(prefix) {
        value := ReadMapReply(prefix, payload, depth);
      } else {
        var scalar := ReadScalar(prefix, payload, stream, remaining);
        value := if scalar.Success? then Success(scalar.value.value) else Failure(scalar.error);
      }
    }

    method ReadBlobReply(prefix: char, payload: Bytes) returns (value: Result<RespValue, RespError>)
      modifies this
      ensures Took(value, stream, remaining, ReadBlob(prefix, payload, old(stream), old(remaining)), old(stream))
    {
      var length := ParseLength(payload);
      if length.Failure? {
        return Failure(length.error);
      }
      if length.value == -1 {
        return Success(Bulk(None));
      }
      var bytes := ReadProtocolBytes(length.value);
      value := if bytes.Success? then Success(BlobValue(prefix, bytes.value)) else Failure(bytes.error);
    }

    method ReadGroupReply(prefix: char, payload: Bytes, depth: nat) returns (value: Result<RespValue, RespError>)
      modifies this
      ensures Took(value, stream, remaining, ReadGroup(prefix, payload, old(stream), old(remaining), depth), old(stream))
      decreases |stream|, 2
    {
      var length := ParseLength(payload);
      if length.Failure? {
        return Failure(length.error);
      }
      if length.value == -1 {
        return Success(NullArray);
      }
      if length.value > MAX_COLLECTION_ELEMENTS {
        return Failure(TooManyElements);
      }
      var values := ReadCollection(depth + 1, length.value);
      value := if values.Success? then Success(GroupValue(prefix, values.value)) else Failure(values.error);
    }

    method ReadMapReply(prefix: char, payload: Bytes, depth: nat) returns (value: Result<RespValue, RespError>)
      modifies this
      ensures Took(value, stream, remaining, ReadMap(prefix, payload, old(stream), old(remaining), depth), old(stream))
      decreases |stream|, 2
    {
      var length := ParseLength(payload);
      if length.Failure? {
        return Failure(length.error);
      }
      if length.value < 0 {
        return Failure(InvalidMapLength);
      }
      if length.value > MAX_COLLECTION_ELEMENTS {
        return Failure(TooManyElements);
      }
      var entries := ReadPairs(depth + 1, length.value);
      if entries.Failure? {
        return Failure(entries.error);
      }
      if prefix == '|' {
        value := ReadValue(depth + 1);
      } else {
        value := Success(Map(entries.value));
      }
    }

    method ReadCollection(depth: nat, length: nat) returns (values: Result<seq<RespValue>, RespError>)
      modifies this
      ensures Took(values, stream, remaining, ReadValues(old(stream), old(remaining), depth, length), old(stream))
      decreases |stream|, 1
    {
      hide ReadResponse, ReadValues, BehindValues;
      var read: seq<RespValue> := [];
      BehindNoValues(ReadValues(stream, remaining, depth, length));
      for i := 0 to length
        invariant |stream| <= |old(stream)|
        invariant ReadValues(old(stream), old(remaining), depth, length) ==
                  BehindValues(read, ReadValues(stream, remaining, depth, length - i))
      {
        ValuesStep(read, stream, remaining, depth, length - i);
        var value := ReadValue(depth);
        if value.Failure? {
          return Failure(value.error);
        }
        read := read + [value.value];
      }
      NoValuesLeft(read, stream, remaining, depth);
      values := Success(read);
    }

    method ReadPairs(depth: nat, count: nat) returns (entries: Result<seq<Entry>, RespError>)
      modifies this
      ensures Took(entries, stream, remaining, ReadEntries(old(stream), old(remaining), depth, count), old(stream))
      decreases |stream|, 1
    {
      hide ReadResponse, ReadEntries, BehindEntries;
      var read: seq<Entry> := [];
      BehindNoEntries(ReadEntries(stream, remaining, depth, count));
      for i := 0 to count
        invariant |stream| <= |old(stream)|
        invariant ReadEntries(old(stream), old(remaining), depth, count) ==
                  BehindEntries(read, ReadEntries(stream, remaining, depth, count - i))
      {
        EntriesStep(read, stream, remaining, depth, count - i);
        var key := ReadValue(depth);
        if key.Failure? {
          return Failure(key.error);
        }
        var value := ReadValue(depth);
        if value.Failure? {
          return Failure(value.error);
        }
        read := read + [Entry(key.value, value.value)];
      }
      NoEntriesLeft(read, stream, remaining, depth);
      entries := Success(read);
    }
  }
}
