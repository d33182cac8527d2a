/**
 The query stream: a producer turns what the driver delivers into events, a collector turns events into
 a truncated result. Both are given step by step; QueryRace lets the steps interleave.
 */
module QueryStream {
  import opened Wrappers

  const MAX_BATCH_ROWS: nat := 256
  const U64_MAX: nat := 0xFFFF_FFFF_FFFF_FFFF

  type Cells = seq<string>
  type Columns = seq<string>

  /** One item of the driver's stream: a statement's end, or a row, whose cells may not convert. */
  datatype Item = Affected(count: nat) | Row(columns: Columns, cells: Option<Cells>)

  datatype Failure = AcquireFailed | SetupFailed | MultipleResultSets | ConversionFailed | DriverFailed | TeardownFailed

  datatype Event =
    | Started
    | Schema(columns: Columns)
    | Batch(rows: seq<Cells>)
    | Completed(affectedRows: nat)
    | Canceled
    | Failed(failure: Failure)

  /** A query and everything the server will answer to it. */
  datatype Query = Query(
    readOnly: bool, acquires: bool, setsUp: bool, items: seq<Item>, endsWell: bool, tearsDown: bool)

  // ----- the producer

  datatype Local = Local(
    schemaSent: bool, currentResultHasRows: bool, completedRowResult: bool, batch: seq<Cells>, affectedRows: nat)

  const INITIAL := Local(false, false, false, [], 0)

  datatype Step = Step(local: Local, events: seq<Event>, finished: bool)

  function SaturatingAdd(a: nat, b: nat): nat { if a + b <= U64_MAX then a + b else U64_MAX }

  function Flush(batch: seq<Cells>): seq<Event> { if batch == [] then [] else [Batch(batch)] }

  /** What one item of the driver's stream does. */
  function Consume(l: Local, item: Item): Step
  {
    match item
    case Affected(count) =>
      var counted := l.(affectedRows := SaturatingAdd(l.affectedRows, count));
      if l.currentResultHasRows then
        Step(counted.(currentResultHasRows := false, completedRowResult := true, batch := []), Flush(l.batch), false)
      else Step(counted, [], false)
    case Row(columns, cells) =>
      if l.completedRowResult then Step(l, [Failed(MultipleResultSets)], true)
      else
        var schema := if l.schemaSent then [] else [Schema(columns)];
        var seen := l.(currentResultHasRows := true, schemaSent := true);
        match cells
        case None => Step(seen, schema + [Failed(ConversionFailed)], true)
        case Some(row) =>
          var batch := l.batch + [row];
          if |batch| == MAX_BATCH_ROWS then Step(seen.(batch := []), schema + [Batch(batch)], false)
          else Step(seen.(batch := batch), schema, false)
  }

  /** What is sent when the driver's stream is over. */
  function Finish(q: Query, l: Local): seq<Event>
  {
    if !q.endsWell then [Failed(DriverFailed)]
    else if q.readOnly && !q.tearsDown then Flush(l.batch) + [Failed(TeardownFailed)]
    else Flush(l.batch) + [Completed(l.affectedRows)]
  }

  /** The events from item `i` on, when the loop finds itself cancelled at its turn `cancelAt`. */
  function EventsFrom(q: Query, i: nat, l: Local, cancelAt: nat): seq<Event>
    requires i <= |q.items|
    decreases |q.items| - i
  {
    if i == cancelAt then [Canceled]
    else if i == |q.items| then Finish(q, l)
    else
      var step := Consume(l, q.items[i]);
      step.events + if step.finished then [] else EventsFrom(q, i + 1, step.local, cancelAt)
  }

  function QueryEvents(q: Query, cancelAt: nat): seq<Event>
  {
    if !q.acquires then [Failed(AcquireFailed)]
    else if q.readOnly && !q.setsUp then [Started, Failed(SetupFailed)]
    else [Started] + EventsFrom(q, 0, INITIAL, cancelAt)
  }

  /** One turn of the loop, with what was sent before. */
  lemma EventsFromStep(q: Query, i: nat, l: Local, cancelAt: nat, sent: seq<Event>)
    requires i <= |q.items|
    ensures sent + EventsFrom(q, i, l, cancelAt) ==
            if i == cancelAt then sent + [Canceled]
            else if i == |q.items| then sent + Finish(q, l)
            else
              var step := Consume(l, q.items[i]);
              if step.finished then sent + step.events
              else sent + step.events + EventsFrom(q, i + 1, step.local, cancelAt)
  {
    hide Consume, Finish;
  }

  // ----- sending

  /** What arrives of the events when the receiver takes `room` of them and is closed then. */
  function UpTo(events: seq<Event>, room: nat): seq<Event> { if |events| <= room then events else events[..room] }

  lemma CutBefore(events: seq<Event>, later: seq<Event>, room: nat)
    requires |events| > room
    ensures UpTo(events + later, room) == UpTo(events, room)
  {
  }

  /** The producer's end of the channel. */
  class EventSender {
    var sent: seq<Event>
    const room: nat

    constructor (room: nat)
      ensures sent == [] && this.room == room
    {
      sent := [];
      this.room := room;
    }

    method Send(event: Event) returns (ok: bool)
      requires |sent| <= room
      modifies this
      ensures |sent| <= room && sent == UpTo(old(sent) + [event], room) && ok == (|old(sent)| < room)
    {
      ok := |sent| < room;
      if ok {
        sent := sent + [event];
      }
    }
  }

  /** The events were sent, or the receiver was closed in between. */
  twostate predicate HasSent(sender: EventSender, events: seq<Event>, ok: bool)
    reads sender
  {
    && |sender.sent| <= sender.room
    && sender.sent == UpTo(old(sender.sent) + events, sender.room)
    && ok == (|old(sender.sent)| + |events| <= sender.room)
  }

  /** The body of the loop for one item, in the source's order of assignments and sends. */
  method HandleItem(sender: EventSender, l: Local, item: Item) returns (after: Local, finished: bool, ok: bool)
    requires |sender.sent| <= sender.room
    modifies sender
    ensures HasSent(sender, Consume(l, item).events, ok)
    ensures ok ==> after == Consume(l, item).local && finished == Consume(l, item).finished
  {
    after, finished, ok := l, false, true;
    var schemaSent, hasRows, completed, batch, affected :=
      l.schemaSent, l.currentResultHasRows, l.completedRowResult, l.batch, l.affectedRows;
    match item {
      case Affected(count) =>
        affected := SaturatingAdd(affected, count);
        if hasRows {
          if batch != [] {
            ok := sender.Send(Batch(batch));
            if !ok {
              return;
            }
            batch := [];
          }
          hasRows, completed := false, true;
        }
      case Row(columns, cells) =>
        if completed {
          ok := sender.Send(Failed(MultipleResultSets));
          finished := true;
          return;
        }
        hasRows := true;
        if !schemaSent {
          ok := sender.Send(Schema(columns));
          if !ok {
            return;
          }
          schemaSent := true;
        }
        match cells {
          case None =>
            ok := sender.Send(Failed(ConversionFailed));
            if !ok {
              return;
            }
            finished := true;
          case Some(row) =>
            batch := batch + [row];
            if |batch| == MAX_BATCH_ROWS {
              ok := sender.Send(Batch(batch));
              if !ok {
                return;
              }
              batch := [];
            }
        }
    }
    after := Local(schemaSent, hasRows, completed, batch, affected);
  }

  /** The end of the driver's stream: the rest of the batch, the session's reset, and the terminal event. */
  method FinishQuery(sender: EventSender, q: Query, l: Local) returns (ok: bool)
    requires |sender.sent| <= sender.room
    modifies sender
    ensures HasSent(sender, Finish(q, l), ok)
  {
    if !q.endsWell {
      ok := sender.Send(Failed(DriverFailed));
      return;
    }
    if l.batch != [] {
      ok := sender.Send(Batch(l.batch));
      if !ok {
        return;
      }
    }
    if q.readOnly && !q.tearsDown {
      ok := sender.Send(Failed(TeardownFailed));
      return;
    }
    ok := sender.Send(Completed(l.affectedRows));
  }

  /**
   The whole producer, with the turn at which it finds itself cancelled as a parameter. It sends the specified
   events, or stops with an error as soon as the receiver is closed.
   */
  method ExecuteQuery(sender: EventSender, q: Query, cancelAt: nat) returns (ok: bool)
    requires sender.sent == []
    modifies sender
    ensures sender.sent == UpTo(QueryEvents(q, cancelAt), sender.room)
    ensures ok <==> |QueryEvents(q, cancelAt)| <= sender.room
  {
    hide Consume, Finish, EventsFrom;
    if !q.acquires {
      ok := sender.Send(Failed(AcquireFailed));
      return;
    }
    ok := sender.Send(Started);
    if !ok {
      return;
    }
    if q.readOnly && !q.setsUp {
      ok := sender.Send(Failed(SetupFailed));
      return;
    }
    var l := INITIAL;
    var i := 0;
    while true
      invariant i <= |q.items| && |sender.sent| <= sender.room
      invariant QueryEvents(q, cancelAt) == sender.sent + EventsFrom(q, i, l, cancelAt)
      decreases |q.items| - i
    {
      ghost var before := sender.sent;
      EventsFromStep(q, i, l, cancelAt, before);
      if i == cancelAt {
        ok := sender.Send(Canceled);
        return;
      }
      if i == |q.items| {
        ok := FinishQuery(sender, q, l);
        return;
      }
      ghost var step := Consume(l, q.items[i]);
      ghost var later := if step.finished then [] else EventsFrom(q, i + 1, step.local, cancelAt);
      assert QueryEvents(q, cancelAt) == before + step.events + later;
      var after, finished, sent := HandleItem(sender, l, q.items[i]);
      if !sent {
        CutBefore(before + step.events, later, sender.room);
        return false;
      }
      if finished {
        return true;
      }
      l, i := after, i + 1;
    }
  }

  // ----- the rows a query is about

  /** The rows up to the first item that is no convertible row. */
  function LeadingRows(items: seq<Item>): seq<Cells>
  {
    if items == [] || !items[0].Row? || items[0].cells.None? then []
    else [items[0].cells.value] + LeadingRows(items[1..])
  }

  /** The first row-producing set. */
  function FirstSet(items: seq<Item>): seq<Cells>
  {
    if items == [] then []
    else if items[0].Affected? then FirstSet(items[1..])
    else LeadingRows(items)
  }

  function TotalAffected(items: seq<Item>): nat
  {
    if items == [] then 0
    else
      var n := |items| - 1;
      if items[n].Affected? then SaturatingAdd(TotalAffected(items[..n]), items[n].count) else TotalAffected(items[..n])
  }

  function RowsOf(events: seq<Event>): seq<Cells>
  {
    if events == [] then []
    else
      var n := |events| - 1;
      RowsOf(events[..n]) + if events[n].Batch? then events[n].rows else []
  }

  // ----- the grammar of events

  predicate IsTerminal(event: Event) { event.Completed? || event.Canceled? || event.Failed? }

  /** Started, then at most one Schema, then batches of 256 rows, the last of which may be smaller. */
  predicate IsBody(events: seq<Event>)
  {
    && events != [] && events[0] == Started
    && (|events| > 1 ==> events[1].Schema?)
    && (|events| > 2 ==> events[|events| - 1].Batch? && 1 <= |events[|events| - 1].rows| <= 256)
    && (events != [] ==> AreFull(events[..|events| - 1]))
  }

  predicate AreFull(events: seq<Event>) { forall i :: 2 <= i < |events| ==> events[i].Batch? && |events[i].rows| == 256 }

  /** A body and one terminal event, or the failure to connect. */
  predicate IsComplete(events: seq<Event>)
  {
    || events == [Failed(AcquireFailed)]
    || (|events| > 1 && IsTerminal(events[|events| - 1]) && IsBody(events[..|events| - 1]))
  }

  /** The schema sent is that of the first row. */
  predicate HasFirstColumns(events: seq<Event>, items: seq<Item>)
  {
    |events| > 1 && events[1].Schema? ==>
      exists i :: 0 <= i < |items| && items[i].Row? && items[i].columns == events[1].columns
        && forall j :: 0 <= j < i ==> !items[j].Row?
  }

  /** The rows sent are a prefix of the first set, and all of it when the query completed. */
  predicate TellsFirstSet(events: seq<Event>, items: seq<Item>)
  {
    && RowsOf(events) <= FirstSet(items)
    && (events != [] && events[|events| - 1].Completed? ==>
          && RowsOf(events) == FirstSet(items)
          && events[|events| - 1].affectedRows == TotalAffected(items))
  }

  // ----- the collector

  datatype Collector = Collector(
    columns: Columns, rows: seq<Cells>, truncated: bool, canceledForLimit: bool, affectedRows: nat,
    error: Option<Event>, done: bool)

  const EMPTY := Collector([], [], false, false, 0, None, false)

  /** Rows are taken until one exceeds the limit. */
  function Take(c: Collector, rows: seq<Cells>, limit: nat): Collector
    decreases |rows|
  {
    if rows == [] then c
    else if |c.rows| >= limit then c.(truncated := true, canceledForLimit := true)
    else Take(c.(rows := c.rows + [rows[0]]), rows[1..], limit)
  }

  function Collect(c: Collector, event: Event, limit: nat): Collector
  {
    match event
    case Started => c
    case Schema(columns) => c.(columns := columns)
    case Batch(rows) => Take(c, rows, limit)
    case Completed(affected) => c.(affectedRows := affected, done := true)
    case Canceled => c.(error := if c.canceledForLimit then c.error else Some(event), done := true)
    case Failed(_) => c.(error := Some(event), done := true)
  }

  function CollectAll(events: seq<Event>, limit: nat): Collector
  {
    if events == [] then EMPTY
    else
      var before := CollectAll(events[..|events| - 1], limit);
      if before.done then before else Collect(before, events[|events| - 1], limit)
  }

  method TakeRows(c: Collector, batch: seq<Cells>, limit: nat) returns (after: Collector)
    ensures after == Take(c, batch, limit)
  {
    after := c;
    for i := 0 to |batch|
      invariant Take(c, batch, limit) == Take(after, batch[i..], limit)
    {
      assert batch[i..][0] == batch[i] && batch[i..][1..] == batch[i + 1..];
      if |after.rows| >= limit {
        return after.(truncated := true, canceledForLimit := true);
      }
      after := after.(rows := after.rows + [batch[i]]);
    }
  }

  /** The collector's loop over a finished channel. */
  method CollectQueryEvents(events: seq<Event>, limit: nat) returns (result: Collector)
    ensures result == CollectAll(events, limit)
  {
    hide Take;
    result := EMPTY;
    assert events[..0] == [];
    var i := 0;
    while i < |events| && !result.done
      invariant i <= |events| && result == CollectAll(events[..i], limit)
    {
      assert events[..i + 1][..i] == events[..i] && events[..i + 1][i] == events[i];
      match events[i] {
        case Started =>
        case Schema(columns) => result := result.(columns := columns);
        case Batch(rows) => result := TakeRows(result, rows, limit);
        case Completed(affected) => result := result.(affectedRows := affected, done := true);
        case Canceled =>
          if !result.canceledForLimit {
            result := result.(error := Some(Canceled));
          }
          result := result.(done := true);
        case Failed(_) => result := result.(error := Some(events[i]), done := true);
      }
      i := i + 1;
    }
    DoneStays(events, i, limit);
    assert events[..|events|] == events;
  }

  lemma {:induction false} DoneStays(events: seq<Event>, i: nat, limit: nat)
    requires i <= |events| && (i < |events| ==> CollectAll(events[..i], limit).done)
    ensures i < |events| ==> CollectAll(events, limit) == CollectAll(events[..i], limit)
    decreases |events|
  {
    if i < |events| {
      var n := |events| - 1;
      if i < n {
        assert events[..n][..i] == events[..i];
        DoneStays(events[..n], i, limit);
      }
    }
  }
}
