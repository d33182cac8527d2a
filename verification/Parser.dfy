/**
 The parser's loops: files, frames, and compressed payloads that hold further frames, under one budget.

 What an event decodes to is a parameter that may depend on every frame seen before; a cancellation is a
 poll of the token from which on it answers yes.
 */
module Parser {
  import opened Wrappers
  import opened Framing

  const MAX_PAYLOAD_BYTES: nat := 512 * 1024 * 1024
  const MAX_PAYLOAD_EVENTS: nat := 1_000_000
  const MAX_PAYLOAD_DEPTH: nat := 8
  const PROGRESS_BYTE_INTERVAL: nat := 1024 * 1024
  const PROGRESS_EVENT_INTERVAL: nat := 256

  /** What decompressing yields: some bytes, and then the end of the content or an error. */
  datatype Content = Content(bytes: seq<byte>, broken: bool)

  /** An event as far as the budget is concerned; `content` is None when decompressing does not even start. */
  datatype Decoded = Plain | Refused | Payload(declaredSize: nat, content: Option<Content>)

  datatype Env = Env(decode: (seq<Frame>, bool) -> Result<Decoded, Failure>, cancelAt: nat)

  /** `inner` lists the decompressed frames and `seen` all frames, both in the order they were read. */
  datatype Counters = Counters(
    eventCount: nat, bytes: nat, events: nat, depth: nat, polls: nat, seen: seq<Frame>, inner: seq<Frame>)

  datatype Outcome = Outcome(counters: Counters, error: Option<Failure>)

  const INITIAL := Counters(0, 0, 0, 0, 0, [], [])

  // ----- what the steps do to the counters

  /** The bytes still allowed. */
  function Left(bytes: nat): nat { if bytes <= MAX_PAYLOAD_BYTES then MAX_PAYLOAD_BYTES - bytes else 0 }

  function Enter(c: Counters, declaredSize: nat): Result<Counters, Failure>
  {
    if c.depth >= MAX_PAYLOAD_DEPTH then Failure(PayloadTooDeep)
    else if declaredSize > Left(c.bytes) then Failure(PayloadTooLarge)
    else Success(c.(depth := c.depth + 1))
  }

  function Leave(c: Counters): Counters { c.(depth := if c.depth > 0 then c.depth - 1 else 0) }

  function Record(c: Counters, frame: Frame): Result<Counters, Failure>
  {
    if c.events >= MAX_PAYLOAD_EVENTS then Failure(PayloadEventLimit)
    else if c.bytes + |frame| > MAX_PAYLOAD_BYTES then Failure(PayloadTooLarge)
    else
      Success(c.(bytes := c.bytes + |frame|, events := c.events + 1, inner := c.inner + [frame], seen := c.seen + [frame]))
  }

  /** The largest frame a payload may still hold. */
  function FrameLimit(c: Counters): (limit: nat)
    ensures limit <= MAX_EVENT_SIZE_BYTES
  {
    if Left(c.bytes) < MAX_EVENT_SIZE_BYTES then Left(c.bytes) else MAX_EVENT_SIZE_BYTES
  }

  function ProcessEvent(env: Env, c: Counters, event: Decoded): (r: Outcome)
    requires c.depth <= MAX_PAYLOAD_DEPTH
    ensures r.counters.depth == c.depth
    decreases MAX_PAYLOAD_DEPTH - c.depth, 0
  {
    match event
    case Plain => Outcome(c, None)
    case Refused => Outcome(c, Some(Rejected))
    case Payload(declaredSize, content) =>
      match Enter(c, declaredSize)
      case Failure(error) => Outcome(c, Some(error))
      case Success(entered) =>
        match content
        case None => Outcome(Leave(entered), Some(DecompressFailed))
        case Some(Content(bytes, broken)) =>
          var r := ProcessPayload(env, entered, bytes, broken);
          Outcome(Leave(r.counters), r.error)
  }

  function ProcessPayload(env: Env, c: Counters, payload: seq<byte>, broken: bool): (r: Outcome)
    requires c.depth <= MAX_PAYLOAD_DEPTH
    ensures r.counters.depth == c.depth
    decreases MAX_PAYLOAD_DEPTH - c.depth, 1 + |payload|
  {
    if payload == [] then Outcome(c, if broken then Some(PayloadReadFailed) else None)
    else
      var polled := c.(polls := c.polls + 1);
      if c.polls >= env.cancelAt then Outcome(polled, None)
      else
        FrameRead(payload, None, 0, FrameLimit(c));
        match ReadEventFrame(payload, None, 0, FrameLimit(c))
        case Failure(error) => Outcome(polled, Some(error))
        case Success(None) => Outcome(polled, Some(PayloadTruncated))
        case Success(Some(frame)) =>
          var r := ProcessFrame(env, polled, frame);
          if r.error.Some? then r else ProcessPayload(env, r.counters, payload[|frame|..], broken)
  }

  /** One decompressed frame: recorded first, then decoded, then processed. */
  function ProcessFrame(env: Env, c: Counters, frame: Frame): (r: Outcome)
    requires c.depth <= MAX_PAYLOAD_DEPTH
    ensures r.counters.depth == c.depth
    decreases MAX_PAYLOAD_DEPTH - c.depth, 1
  {
    match Record(c, frame)
    case Failure(error) => Outcome(c, Some(error))
    case Success(recorded) =>
      match env.decode(recorded.seen, true)
      case Failure(error) => Outcome(recorded, Some(error))
      case Success(event) => ProcessEvent(env, recorded.(eventCount := recorded.eventCount + 1), event)
  }

  // ----- the budget

  function SumLengths(frames: seq<Frame>): nat
  {
    if frames == [] then 0 else SumLengths(frames[..|frames| - 1]) + |frames[|frames| - 1]|
  }

  /** The counters stay within their limits and account exactly for the decompressed frames. */
  predicate WithinBudget(c: Counters)
  {
    && c.bytes == SumLengths(c.inner) && c.bytes <= MAX_PAYLOAD_BYTES
    && c.events == |c.inner| && c.events <= MAX_PAYLOAD_EVENTS
    && c.depth <= MAX_PAYLOAD_DEPTH
  }

  lemma RecordKeepsBudget(c: Counters, frame: Frame)
    requires WithinBudget(c) && Record(c, frame).Success?
    ensures WithinBudget(Record(c, frame).value)
  {
    assert (c.inner + [frame])[..|c.inner|] == c.inner;
  }

  /**
   Through any nesting of payloads, whether they are read to the end or fail, the budget is kept: bytes,
   events and depth stay within their limits, and the depth is what it was.
   */
  lemma {:induction false} EventKeepsBudget(env: Env, c: Counters, event: Decoded)
    requires WithinBudget(c)
    ensures WithinBudget(ProcessEvent(env, c, event).counters) && ProcessEvent(env, c, event).counters.depth == c.depth
    decreases MAX_PAYLOAD_DEPTH - c.depth, 0
  {
    hide SumLengths;
    if event.Payload? && Enter(c, event.declaredSize).Success? && event.content.Some? {
      var content := event.content.value;
      PayloadKeepsBudget(env, Enter(c, event.declaredSize).value, content.bytes, content.broken);
    }
  }

  lemma {:induction false} PayloadKeepsBudget(env: Env, c: Counters, payload: seq<byte>, broken: bool)
    requires WithinBudget(c)
    ensures WithinBudget(ProcessPayload(env, c, payload, broken).counters)
    decreases MAX_PAYLOAD_DEPTH - c.depth, 1 + |payload|
  {
    hide SumLengths, ReadEventFrame, ProcessFrame;
    if payload != [] && c.polls < env.cancelAt {
      FrameRead(payload, None, 0, FrameLimit(c));
      match ReadEventFrame(payload, None, 0, FrameLimit(c)) {
        case Success(Some(frame)) =>
          var polled := c.(polls := c.polls + 1);
          FrameKeepsBudget(env, polled, frame);
          var r := ProcessFrame(env, polled, frame);
          if r.error.None? {
            PayloadKeepsBudget(env, r.counters, payload[|frame|..], broken);
          }
        case _ =>
      }
    }
  }

  lemma {:induction false} FrameKeepsBudget(env: Env, c: Counters, frame: Frame)
    requires WithinBudget(c)
    ensures WithinBudget(ProcessFrame(env, c, frame).counters)
    decreases MAX_PAYLOAD_DEPTH - c.depth, 1
  {
    hide SumLengths, Record;
    if Record(c, frame).Success? {
      RecordKeepsBudget(c, frame);
      var recorded := Record(c, frame).value;
      RecordKeepsDepth(c, frame);
      var event := env.decode(recorded.seen, true);
      if event.Success? {
        EventKeepsBudget(env, recorded.(eventCount := recorded.eventCount + 1), event.value);
      }
    }
  }

  lemma RecordKeepsDepth(c: Counters, frame: Frame)
    requires Record(c, frame).Success?
    ensures Record(c, frame).value.depth == c.depth
  {
  }

  // ----- the parser's state

  class ParserState {
    var eventCount: nat
    var bytes: nat
    var events: nat
    var depth: nat
    var polls: nat
    var seen: seq<Frame>
    var inner: seq<Frame>

    constructor ()
      ensures Value() == INITIAL
    {
      eventCount, bytes, events, depth, polls, seen, inner := 0, 0, 0, 0, 0, [], [];
    }

    function Value(): Counters
      reads this
    {
      Counters(eventCount, bytes, events, depth, polls, seen, inner)
    }

    method IsCancelled(env: Env) returns (cancelled: bool)
      modifies this
      ensures Value() == old(Value()).(polls := old(polls) + 1) && cancelled == (old(polls) >= env.cancelAt)
    {
      cancelled := polls >= env.cancelAt;
      polls := polls + 1;
    }

    method EnterTransactionPayload(declaredSize: nat) returns (error: Option<Failure>)
      modifies this
      ensures match Enter(old(Value()), declaredSize)
              case Failure(e) => error == Some(e) && Value() == old(Value())
              case Success(c) => error == None && Value() == c
    {
      if depth >= MAX_PAYLOAD_DEPTH {
        return Some(PayloadTooDeep);
      }
      if declaredSize > Left(bytes) {
        return Some(PayloadTooLarge);
      }
      depth := depth + 1;
      error := None;
    }

    method LeaveTransactionPayload()
      modifies this
      ensures Value() == Leave(old(Value()))
    {
      depth := if depth > 0 then depth - 1 else 0;
    }

    method RecordDecompressedEvent(frame: Frame) returns (error: Option<Failure>)
      modifies this
      ensures match Record(old(Value()), frame)
              case Failure(e) => error == Some(e) && Value() == old(Value())
              case Success(c) => error == None && Value() == c
    {
      if events >= MAX_PAYLOAD_EVENTS {
        return Some(PayloadEventLimit);
      }
      var total := bytes + |frame|;
      if total > MAX_PAYLOAD_BYTES {
        return Some(PayloadTooLarge);
      }
      bytes := total;
      events := events + 1;
      inner, seen := inner + [frame], seen + [frame];
      error := None;
    }

    method Process(env: Env, event: Decoded) returns (error: Option<Failure>)
      requires depth <= MAX_PAYLOAD_DEPTH
      modifies this
      ensures Outcome(Value(), error) == ProcessEvent(env, old(Value()), event)
      decreases MAX_PAYLOAD_DEPTH - depth, 0
    {
      match event {
        case Plain =>
          error := None;
        case Refused =>
          error := Some(Rejected);
        case Payload(declaredSize, content) =>
          error := EnterTransactionPayload(declaredSize);
          if error.Some? {
            return;
          }
          // The depth is given back whatever becomes of the payload.
          if content.None? {
            error := Some(DecompressFailed);
          } else {
            error := ProcessTransactionPayload(env, content.value.bytes, content.value.broken);
          }
          LeaveTransactionPayload();
      }
    }

    /** The loop over the content as it is decompressed; an error of the decompressor ends it like any other. */
    method ProcessTransactionPayload(env: Env, payload: seq<byte>, broken: bool) returns (error: Option<Failure>)
      requires depth <= MAX_PAYLOAD_DEPTH
      modifies this
      ensures Outcome(Value(), error) == ProcessPayload(env, old(Value()), payload, broken)
      decreases MAX_PAYLOAD_DEPTH - depth, 1 + |payload|
    {
      hide ReadEventFrame, Record, Enter;
      var rest := payload;
      while rest != []
        invariant depth == old(depth) && |rest| <= |payload|
        invariant ProcessPayload(env, Value(), rest, broken) == ProcessPayload(env, old(Value()), payload, broken)
        decreases |rest|
      {
        ghost var before := Value();
        var cancelled := IsCancelled(env);
        if cancelled {
          return None;
        }
        FrameRead(rest, None, 0, FrameLimit(before));
        var read := ReadEventFrame(rest, None, 0, FrameLimit(Value()));
        if read.Failure? {
          return Some(read.error);
        }
        if read.value.None? {
          return Some(PayloadTruncated);
        }
        error := ProcessDecompressedFrame(env, read.value.value);
        if error.Some? {
          return;
        }
        rest := rest[|read.value.value|..];
      }
      error := if broken then Some(PayloadReadFailed) else None;
    }

    method ProcessDecompressedFrame(env: Env, frame: Frame) returns (error: Option<Failure>)
      requires depth <= MAX_PAYLOAD_DEPTH
      modifies this
      ensures Outcome(Value(), error) == ProcessFrame(env, old(Value()), frame)
      decreases MAX_PAYLOAD_DEPTH - depth, 1
    {
      error := RecordDecompressedEvent(frame);
      if error.Some? {
        return;
      }
      var event := env.decode(seen, true);
      if event.Failure? {
        return Some(event.error);
      }
      eventCount := eventCount + 1;
      error := Process(env, event.value);
    }
  }
}
