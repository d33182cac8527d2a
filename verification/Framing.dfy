/** Cutting a binlog file into event frames: each frame declares its own size in its header. */
module Framing {
  import opened Wrappers

  type byte = b: int | 0 <= b < 256

  type Frame = seq<byte>

  const EVENT_HEADER_LENGTH: nat := 19
  const EVENT_SIZE_OFFSET: nat := 9
  const MAX_EVENT_SIZE_BYTES: nat := 256 * 1024 * 1024
  const FILE_HEADER_LENGTH: nat := 4

  datatype Failure =
    | TruncatedEventHeader | InvalidEventSize | EventTooLarge | TruncatedEventBody
    | FileOpenFailed | TruncatedFileHeader | InvalidFileHeader | DecodeFailed | Rejected
    | PayloadTooDeep | PayloadTooLarge | PayloadEventLimit | PayloadTruncated | PayloadReadFailed | DecompressFailed

  /** The size in the header, a little-endian 32-bit number. */
  function EventSize(header: seq<byte>): nat
    requires |header| >= EVENT_HEADER_LENGTH
  {
    var h := header[EVENT_SIZE_OFFSET..EVENT_SIZE_OFFSET + 4];
    (h[0] as int) + 256 * (h[1] as int) + 65536 * (h[2] as int) + 16777216 * (h[3] as int)
  }

  /** The next frame of `input`, None at its end; `fileSize` is the size recorded for a physical file. */
  function ReadEventFrame(input: seq<byte>, fileSize: Option<nat>, position: nat, maxEventSize: nat)
    : Result<Option<Frame>, Failure>
  {
    if input == [] then Success(None)
    else if fileSize.Some? && fileSize.value - position < EVENT_HEADER_LENGTH then Failure(TruncatedEventHeader)
    else if |input| < EVENT_HEADER_LENGTH then Failure(TruncatedEventHeader)
    else
      var size := EventSize(input);
      if size < EVENT_HEADER_LENGTH then Failure(InvalidEventSize)
      else if size > maxEventSize then
        Failure(if maxEventSize < MAX_EVENT_SIZE_BYTES then PayloadTooLarge else EventTooLarge)
      else if fileSize.Some? && position + size > fileSize.value then Failure(TruncatedEventBody)
      else if size > |input| then Failure(TruncatedEventBody)
      else Success(Some(input[..size]))
  }

  /** The frames from `position` to the end of the file, or the first failure. */
  function ScanFrames(content: seq<byte>, fileSize: nat, position: nat): Result<seq<Frame>, Failure>
    requires position <= |content|
    decreases |content| - position
  {
    match ReadEventFrame(content[position..], Some(fileSize), position, MAX_EVENT_SIZE_BYTES)
    case Failure(error) => Failure(error)
    case Success(None) => Success([])
    case Success(Some(frame)) =>
      match ScanFrames(content, fileSize, position + |frame|)
      case Failure(error) => Failure(error)
      case Success(rest) => Success([frame] + rest)
  }

  /** The `k` lowest bytes of a number, the lowest first. */
  function LittleEndian(n: nat, k: nat): seq<byte>
  {
    if k == 0 then [] else [n % 256] + LittleEndian(n / 256, k - 1)
  }

  /** The size of an event stands behind the first nine bytes of its header, in four bytes. */
  lemma SizeIsLittleEndian(header: seq<byte>, size: nat)
    requires |header| >= 19 && size < 0x1_0000_0000 && header[9..13] == LittleEndian(size, 4)
    ensures EventSize(header) == size
  {
    var h := LittleEndian(size, 4);
    assert h == [size % 256] + ([size / 256 % 256] + ([size / 256 / 256 % 256] + ([size / 256 / 256 / 256 % 256] + []))) by {
      Digits(size);
    }
    BytesAddUp(size);
  }

  lemma Digits(n: nat)
    ensures LittleEndian(n, 4) ==
            [n % 256] + ([n / 256 % 256] + ([n / 256 / 256 % 256] + ([n / 256 / 256 / 256 % 256] + [])))
  {
    assert LittleEndian(n / 256 / 256, 2) == [n / 256 / 256 % 256] + LittleEndian(n / 256 / 256 / 256, 1);
    assert LittleEndian(n / 256, 3) == [n / 256 % 256] + LittleEndian(n / 256 / 256, 2);
  }

  lemma BytesAddUp(n: nat)
    requires n < 0x1_0000_0000
    ensures n % 256 + 256 * (n / 256 % 256) + 65536 * (n / 256 / 256 % 256) + 16777216 * (n / 256 / 256 / 256 % 256) == n
  {
  }

  // ----- tilings

  /** A frame says how long it is. */
  predicate IsFrame(frame: Frame)
  {
    19 <= |frame| <= 268_435_456 && EventSize(frame) == |frame|
  }

  function Concat(frames: seq<Frame>): seq<byte>
  {
    if frames == [] then [] else frames[0] + Concat(frames[1..])
  }

  predicate Tiles(frames: seq<Frame>, bytes: seq<byte>)
  {
    Concat(frames) == bytes && forall i :: 0 <= i < |frames| ==> IsFrame(frames[i])
  }

  /** A frame that is read is one, and lies within the recorded size. */
  lemma FrameRead(input: seq<byte>, fileSize: Option<nat>, position: nat, maxEventSize: nat)
    requires maxEventSize <= MAX_EVENT_SIZE_BYTES
    ensures var r := ReadEventFrame(input, fileSize, position, maxEventSize);
            r.Success? && r.value.Some? ==>
              && IsFrame(r.value.value) && |r.value.value| <= maxEventSize && r.value.value <= input
              && (fileSize.Some? ==> position + |r.value.value| <= fileSize.value)
  {
    if |input| >= EVENT_HEADER_LENGTH && EVENT_HEADER_LENGTH <= EventSize(input) <= |input| {
      PrefixSize(input, EventSize(input));
    }
  }

  /** The size is in the header, so a prefix declares the same one. */
  lemma PrefixSize(input: seq<byte>, size: nat)
    requires EVENT_HEADER_LENGTH <= size <= |input|
    ensures EventSize(input[..size]) == EventSize(input)
  {
    assert input[..size][EVENT_SIZE_OFFSET..EVENT_SIZE_OFFSET + 4] == input[EVENT_SIZE_OFFSET..EVENT_SIZE_OFFSET + 4];
  }

  /** What a failure to read a frame says is so. */
  lemma FrameFailureIsTrue(input: seq<byte>, fileSize: Option<nat>, position: nat, maxEventSize: nat)
    requires ReadEventFrame(input, fileSize, position, maxEventSize).Failure?
    ensures match ReadEventFrame(input, fileSize, position, maxEventSize).error
            case TruncatedEventHeader =>
              input != [] && (|input| < 19 || (fileSize.Some? && fileSize.value < position + 19))
            case InvalidEventSize => |input| >= 19 && EventSize(input) < 19
            case EventTooLarge => |input| >= 19 && EventSize(input) > maxEventSize >= 268_435_456
            case PayloadTooLarge => |input| >= 19 && EventSize(input) > maxEventSize && maxEventSize < 268_435_456
            case TruncatedEventBody =>
              && 19 <= |input| && 19 <= EventSize(input) <= maxEventSize
              && (|input| < EventSize(input) || (fileSize.Some? && fileSize.value < position + EventSize(input)))
            case _ => false
  {
  }

  lemma FrameIsRead(frame: Frame, rest: seq<byte>, fileSize: nat, position: nat)
    requires IsFrame(frame) && position + |frame| <= fileSize
    ensures ReadEventFrame(frame + rest, Some(fileSize), position, MAX_EVENT_SIZE_BYTES) == Success(Some(frame))
  {
    var input := frame + rest;
    assert input[9] == frame[9] && input[10] == frame[10] && input[11] == frame[11] && input[12] == frame[12];
    assert input[..|frame|] == frame;
  }

  lemma {:induction false} ScannedTiles(content: seq<byte>, fileSize: nat, position: nat)
    requires position <= |content| && ScanFrames(content, fileSize, position).Success?
    ensures Tiles(ScanFrames(content, fileSize, position).value, content[position..])
    ensures position == |content| || |content| <= fileSize
    decreases |content| - position
  {
    hide ReadEventFrame, IsFrame;
    var input := content[position..];
    FrameRead(input, Some(fileSize), position, MAX_EVENT_SIZE_BYTES);
    match ReadEventFrame(input, Some(fileSize), position, MAX_EVENT_SIZE_BYTES) {
      case Success(None) => EndIsEmpty(input, fileSize, position);
      case Success(Some(frame)) =>
        ScannedTiles(content, fileSize, position + |frame|);
        assert content[position + |frame|..] == input[|frame|..];
    }
  }

  lemma EndIsEmpty(input: seq<byte>, fileSize: nat, position: nat)
    ensures ReadEventFrame(input, Some(fileSize), position, MAX_EVENT_SIZE_BYTES) == Success(None) <==> input == []
  {
  }

  lemma {:induction false} TiledIsScanned(content: seq<byte>, fileSize: nat, position: nat, frames: seq<Frame>)
    requires position <= |content| && Tiles(frames, content[position..])
    requires position == |content| || |content| <= fileSize
    ensures ScanFrames(content, fileSize, position) == Success(frames)
    decreases |frames|
  {
    hide ReadEventFrame, EventSize;
    var input := content[position..];
    EndIsEmpty(input, fileSize, position);
    if frames != [] {
      var rest := Concat(frames[1..]);
      assert input == frames[0] + rest;
      FrameIsRead(frames[0], rest, fileSize, position);
      assert content[position + |frames[0]|..] == rest;
      TiledIsScanned(content, fileSize, position + |frames[0]|, frames[1..]);
      assert frames == [frames[0]] + frames[1..];
    }
  }

  /**
   A file is read to a clean end exactly when the bytes behind its header fall into frames that declare
   their own sizes and end within the recorded size; the frames are then those, and no others.
   */
  lemma CleanEndMeansTiled(content: seq<byte>, fileSize: nat, frames: seq<Frame>)
    requires FILE_HEADER_LENGTH <= |content|
    ensures ScanFrames(content, fileSize, FILE_HEADER_LENGTH) == Success(frames) <==>
            && Tiles(frames, content[FILE_HEADER_LENGTH..])
            && (|content| == FILE_HEADER_LENGTH || |content| <= fileSize)
  {
    hide ScanFrames, Tiles;
    if ScanFrames(content, fileSize, FILE_HEADER_LENGTH).Success? {
      ScannedTiles(content, fileSize, FILE_HEADER_LENGTH);
    }
    if Tiles(frames, content[FILE_HEADER_LENGTH..]) && (|content| == FILE_HEADER_LENGTH || |content| <= fileSize) {
      TiledIsScanned(content, fileSize, FILE_HEADER_LENGTH, frames);
    }
  }
}
