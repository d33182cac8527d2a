/** Every run of the producer, cancelled anywhere or not at all, sends a well-formed stream of events. */
module QueryGrammar {
  import opened Wrappers
  import opened QueryStream

  // ----- how far the first row-producing set has got

  datatype Phase = Before | Inside | After | Stuck

  predicate IsGood(item: Item) { item.Row? && item.cells.Some? }

  function RowPhase(items: seq<Item>): Phase
  {
    if items == [] then Inside
    else if items[0].Affected? then After
    else if items[0].cells.None? then Stuck
    else RowPhase(items[1..])
  }

  function PhaseOf(items: seq<Item>): Phase
  {
    if items == [] then Before
    else if items[0].Affected? then PhaseOf(items[1..])
    else RowPhase(items)
  }

  lemma {:induction false} OneMoreRow(items: seq<Item>, item: Item)
    ensures LeadingRows(items + [item]) ==
            LeadingRows(items) + (if RowPhase(items).Inside? && IsGood(item) then [item.cells.value] else [])
    ensures RowPhase(items + [item]) ==
            if !RowPhase(items).Inside? || IsGood(item) then RowPhase(items)
            else if item.Affected? then After
            else Stuck
  {
    var all := items + [item];
    if items == [] {
      assert all[1..] == [] && all == [item];
    } else {
      assert all[1..] == items[1..] + [item];
      OneMoreRow(items[1..], item);
    }
  }

  /** What one more item does to the first set. */
  lemma {:induction false} OneMoreItem(items: seq<Item>, item: Item)
    ensures FirstSet(items + [item]) ==
            FirstSet(items) +
            (if (PhaseOf(items).Before? || PhaseOf(items).Inside?) && IsGood(item) then [item.cells.value] else [])
    ensures PhaseOf(items + [item]) ==
            match PhaseOf(items)
            case Before => if item.Affected? then Before else if IsGood(item) then Inside else Stuck
            case Inside => if item.Affected? then After else if IsGood(item) then Inside else Stuck
            case _ => PhaseOf(items)
  {
    var all := items + [item];
    if items == [] {
      assert all == [item] && all[1..] == [];
      assert FirstSet([]) == [] && PhaseOf([]) == Before;
      OneMoreRow([], item);
    } else if items[0].Affected? {
      assert all[1..] == items[1..] + [item];
      OneMoreItem(items[1..], item);
    } else {
      OneMoreRow(items, item);
      RowPhaseIsNeverBefore(items);
    }
  }

  lemma {:induction false} RowPhaseIsNeverBefore(items: seq<Item>)
    ensures !RowPhase(items).Before?
  {
    if items != [] {
      RowPhaseIsNeverBefore(items[1..]);
    }
  }

  lemma PrefixStep(items: seq<Item>, i: nat)
    requires i < |items|
    ensures items[..i + 1] == items[..i] + [items[i]]
  {
  }

  lemma {:induction false} FirstSetGrows(items: seq<Item>, i: nat)
    requires i <= |items|
    ensures FirstSet(items[..i]) <= FirstSet(items)
    ensures PhaseOf(items[..i]).After? || PhaseOf(items[..i]).Stuck? ==> FirstSet(items[..i]) == FirstSet(items)
    decreases |items| - i
  {
    hide FirstSet, PhaseOf;
    if i == |items| {
      assert items[..i] == items;
    } else {
      PrefixStep(items, i);
      OneMoreItem(items[..i], items[i]);
      FirstSetGrows(items, i + 1);
    }
  }

  lemma TotalAffectedStep(items: seq<Item>, i: nat)
    requires i < |items|
    ensures TotalAffected(items[..i + 1]) ==
            if items[i].Affected? then SaturatingAdd(TotalAffected(items[..i]), items[i].count)
            else TotalAffected(items[..i])
  {
    assert items[..i + 1][..i] == items[..i];
  }

  lemma RowsOfOneMore(events: seq<Event>, event: Event)
    ensures RowsOf(events + [event]) == RowsOf(events) + if event.Batch? then event.rows else []
  {
    assert (events + [event])[..|events|] == events;
  }

  // ----- the producer's invariant

  predicate SentFirstColumns(events: seq<Event>, items: seq<Item>, n: nat)
  {
    |events| > 1 ==>
      events[1].Schema? &&
      exists i :: 0 <= i < n && i < |items| && items[i].Row? && items[i].columns == events[1].columns
        && forall j :: 0 <= j < i ==> !items[j].Row?
  }

  predicate NoRows(items: seq<Item>, n: nat)
  {
    forall j :: 0 <= j < n && j < |items| ==> !items[j].Row?
  }

  /** After `i` items: what has been sent, and what the loop still holds. */
  predicate Shape(items: seq<Item>, i: nat, l: Local, sent: seq<Event>)
  {
    && i <= |items|
    && IsBody(sent)
    && |l.batch| < MAX_BATCH_ROWS
    && RowsOf(sent) + l.batch == FirstSet(items[..i])
    && l.affectedRows == TotalAffected(items[..i])
    && !PhaseOf(items[..i]).Stuck?
    && l.schemaSent == !PhaseOf(items[..i]).Before?
    && l.currentResultHasRows == PhaseOf(items[..i]).Inside?
    && l.completedRowResult == PhaseOf(items[..i]).After?
    && (l.schemaSent <==> |sent| > 1)
    && (if l.completedRowResult then l.batch == [] else AreFull(sent))
    && SentFirstColumns(sent, items, i)
    && (!l.schemaSent ==> NoRows(items, i) && l.batch == [])
  }

  predicate CompleteRun(items: seq<Item>, events: seq<Event>)
  {
    IsComplete(events) && TellsFirstSet(events, items) && HasFirstColumns(events, items)
  }

  lemma BodyGrows(sent: seq<Event>, event: Event)
    requires IsBody(sent) && AreFull(sent)
    requires if |sent| == 1 then event.Schema? else event.Batch? && 1 <= |event.rows| <= 256
    ensures IsBody(sent + [event])
    ensures event.Schema? || |event.rows| == 256 ==> AreFull(sent + [event])
  {
    assert (sent + [event])[..|sent|] == sent;
  }

  /** A body ended by a terminal event is a complete run. */
  lemma TerminalCompletes(items: seq<Item>, i: nat, sent: seq<Event>, event: Event)
    requires i <= |items| && IsBody(sent) && SentFirstColumns(sent, items, i) && IsTerminal(event)
    requires RowsOf(sent) <= FirstSet(items[..i])
    requires event.Completed? ==>
               i == |items| && RowsOf(sent) == FirstSet(items) && event.affectedRows == TotalAffected(items)
    ensures CompleteRun(items, sent + [event])
  {
    hide FirstSet, RowsOf, TotalAffected, IsBody;
    var events := sent + [event];
    assert events[..|events| - 1] == sent && events[|events| - 1] == event;
    RowsOfOneMore(sent, event);
    FirstSetGrows(items, i);
    assert RowsOf(events) == RowsOf(sent);
    BodyStarts(sent);
    if |events| > 1 && events[1].Schema? {
      assert events[1] == sent[1];
    }
  }

  lemma BodyStarts(sent: seq<Event>)
    requires IsBody(sent)
    ensures |sent| >= 1
  {
  }

  lemma InitialShape(items: seq<Item>)
    ensures Shape(items, 0, INITIAL, [Started])
  {
    assert items[..0] == [];
    assert RowsOf([]) == [] && [Started][..0] == [];
    assert RowsOf([Started]) == [];
  }

  lemma AffectedKeepsShape(items: seq<Item>, i: nat, l: Local, sent: seq<Event>)
    requires Shape(items, i, l, sent) && i < |items| && items[i].Affected?
    ensures Shape(items, i + 1, Consume(l, items[i]).local, sent + Consume(l, items[i]).events)
  {
    hide FirstSet, PhaseOf, RowsOf, TotalAffected;
    PrefixStep(items, i);
    OneMoreItem(items[..i], items[i]);
    TotalAffectedStep(items, i);
    if l.currentResultHasRows && l.batch != [] {
      BodyGrows(sent, Batch(l.batch));
      RowsOfOneMore(sent, Batch(l.batch));
    } else {
      assert sent + [] == sent;
    }
  }

  lemma SchemaIsFirst(items: seq<Item>, i: nat, sent: seq<Event>, columns: Columns)
    requires i < |items| && items[i].Row? && items[i].columns == columns && NoRows(items, i)
    requires IsBody(sent) && |sent| == 1
    ensures IsBody(sent + [Schema(columns)]) && SentFirstColumns(sent + [Schema(columns)], items, i + 1)
    ensures RowsOf(sent + [Schema(columns)]) == RowsOf(sent)
  {
    RowsOfOneMore(sent, Schema(columns));
    assert (sent + [Schema(columns)])[1] == Schema(columns);
  }

  /** The events once the schema of the current row has been sent. */
  function WithSchema(l: Local, columns: Columns, sent: seq<Event>): seq<Event>
  {
    sent + if l.schemaSent then [] else [Schema(columns)]
  }

  lemma SchemaKeepsBody(items: seq<Item>, i: nat, l: Local, sent: seq<Event>)
    requires Shape(items, i, l, sent) && i < |items| && items[i].Row?
    ensures var events := WithSchema(l, items[i].columns, sent);
            && IsBody(events) && |events| > 1 && RowsOf(events) == RowsOf(sent) && SentFirstColumns(events, items, i + 1)
            && (!l.completedRowResult ==> AreFull(events))
  {
    hide FirstSet, PhaseOf, RowsOf, TotalAffected, IsBody, NoRows;
    if l.schemaSent {
      assert sent + [] == sent;
    } else {
      BodyStarts(sent);
      SchemaIsFirst(items, i, sent, items[i].columns);
    }
  }

  lemma RowKeepsShape(items: seq<Item>, i: nat, l: Local, sent: seq<Event>)
    requires Shape(items, i, l, sent) && i < |items| && IsGood(items[i]) && !l.completedRowResult
    ensures Shape(items, i + 1, Consume(l, items[i]).local, sent + Consume(l, items[i]).events)
  {
    hide FirstSet, PhaseOf, RowsOf, TotalAffected, IsBody, SentFirstColumns, NoRows;
    PrefixStep(items, i);
    OneMoreItem(items[..i], items[i]);
    TotalAffectedStep(items, i);
    SchemaKeepsBody(items, i, l, sent);
    var events, row := WithSchema(l, items[i].columns, sent), items[i].cells.value;
    var batch := l.batch + [row];
    assert RowsOf(events) + batch == RowsOf(sent) + l.batch + [row];
    if |batch| == MAX_BATCH_ROWS {
      BodyGrowsLater(events, batch);
      RowsOfOneMore(events, Batch(batch));
      FirstColumnsStay(events, Batch(batch), items, i + 1);
      assert sent + Consume(l, items[i]).events == events + [Batch(batch)];
      assert RowsOf(events) + batch + [] == RowsOf(events) + batch;
    } else {
      assert sent + Consume(l, items[i]).events == events;
    }
  }

  lemma BodyGrowsLater(sent: seq<Event>, batch: seq<Cells>)
    requires IsBody(sent) && AreFull(sent) && |sent| > 1 && |batch| == MAX_BATCH_ROWS
    ensures IsBody(sent + [Batch(batch)]) && AreFull(sent + [Batch(batch)])
  {
    BodyGrows(sent, Batch(batch));
  }

  lemma FirstColumnsStay(sent: seq<Event>, event: Event, items: seq<Item>, n: nat)
    requires SentFirstColumns(sent, items, n) && |sent| > 1
    ensures SentFirstColumns(sent + [event], items, n)
  {
    assert (sent + [event])[1] == sent[1];
  }

  /** A row that ends the run: of a second set, or one that does not convert. */
  lemma FailureCompletes(items: seq<Item>, i: nat, l: Local, sent: seq<Event>)
    requires Shape(items, i, l, sent) && i < |items| && Consume(l, items[i]).finished
    ensures CompleteRun(items, sent + Consume(l, items[i]).events)
  {
    hide FirstSet, PhaseOf, RowsOf, TotalAffected, IsBody, SentFirstColumns, CompleteRun, NoRows;
    if l.completedRowResult {
      TerminalCompletes(items, i, sent, Failed(MultipleResultSets));
    } else {
      SchemaKeepsBody(items, i, l, sent);
      PrefixStep(items, i);
      OneMoreItem(items[..i], items[i]);
      var events := WithSchema(l, items[i].columns, sent);
      TerminalCompletes(items, i + 1, events, Failed(ConversionFailed));
      assert sent + Consume(l, items[i]).events == events + [Failed(ConversionFailed)];
    }
  }

  /** One item keeps the invariant or completes the run. */
  lemma ConsumeKeepsShape(items: seq<Item>, i: nat, l: Local, sent: seq<Event>)
    requires Shape(items, i, l, sent) && i < |items|
    ensures var step := Consume(l, items[i]);
            if step.finished then CompleteRun(items, sent + step.events)
            else Shape(items, i + 1, step.local, sent + step.events)
  {
    hide Shape, CompleteRun;
    if Consume(l, items[i]).finished {
      FailureCompletes(items, i, l, sent);
    } else if items[i].Affected? {
      AffectedKeepsShape(items, i, l, sent);
    } else {
      RowKeepsShape(items, i, l, sent);
    }
  }

  lemma CancelCompletes(items: seq<Item>, i: nat, l: Local, sent: seq<Event>)
    requires Shape(items, i, l, sent)
    ensures CompleteRun(items, sent + [Canceled])
  {
    hide FirstSet, PhaseOf, RowsOf, TotalAffected, IsBody, SentFirstColumns, CompleteRun;
    TerminalCompletes(items, i, sent, Canceled);
  }

  lemma FinishCompletes(q: Query, l: Local, sent: seq<Event>)
    requires Shape(q.items, |q.items|, l, sent)
    ensures CompleteRun(q.items, sent + Finish(q, l))
  {
    hide FirstSet, PhaseOf, RowsOf, TotalAffected, IsBody, SentFirstColumns, CompleteRun, NoRows;
    var items, n := q.items, |q.items|;
    assert items[..n] == items;
    if !q.endsWell {
      TerminalCompletes(items, n, sent, Failed(DriverFailed));
    } else {
      var last := if q.readOnly && !q.tearsDown then Failed(TeardownFailed) else Completed(l.affectedRows);
      FlushedBody(items, l, sent);
      TerminalCompletes(items, n, sent + Flush(l.batch), last);
      assert sent + Finish(q, l) == sent + Flush(l.batch) + [last];
    }
  }

  lemma FlushedBody(items: seq<Item>, l: Local, sent: seq<Event>)
    requires Shape(items, |items|, l, sent)
    ensures var events := sent + Flush(l.batch);
            IsBody(events) && SentFirstColumns(events, items, |items|) && RowsOf(events) == FirstSet(items)
  {
    hide FirstSet, PhaseOf, RowsOf, TotalAffected, SentFirstColumns, NoRows;
    assert items[..|items|] == items;
    if l.batch == [] {
      assert sent + [] == sent && RowsOf(sent) + [] == RowsOf(sent);
    } else {
      BodyGrows(sent, Batch(l.batch));
      RowsOfOneMore(sent, Batch(l.batch));
      FirstColumnsStay(sent, Batch(l.batch), items, |items|);
    }
  }

  lemma {:induction false} EventsFromComplete(q: Query, i: nat, l: Local, cancelAt: nat, sent: seq<Event>)
    requires Shape(q.items, i, l, sent)
    ensures CompleteRun(q.items, sent + EventsFrom(q, i, l, cancelAt))
    decreases |q.items| - i
  {
    assert i <= |q.items|;
    hide Shape, CompleteRun, Consume, Finish, EventsFrom;
    EventsFromStep(q, i, l, cancelAt, sent);
    if i == cancelAt {
      CancelCompletes(q.items, i, l, sent);
    } else if i == |q.items| {
      FinishCompletes(q, l, sent);
    } else {
      var step := Consume(l, q.items[i]);
      ConsumeKeepsShape(q.items, i, l, sent);
      if !step.finished {
        EventsFromComplete(q, i + 1, step.local, cancelAt, sent + step.events);
      }
    }
  }

  /**
   For every stream of the driver and every turn at which the loop may find itself cancelled: Started, at
   most one Schema, batches of 1 to 256 rows, one terminal event; the rows are a prefix of the first
   row-producing set, all of it on Completed, under that set's columns.
   */
  lemma StreamIsWellFormed(q: Query, cancelAt: nat)
    ensures CompleteRun(q.items, QueryEvents(q, cancelAt))
  {
    hide EventsFrom, Shape;
    if !q.acquires {
      NotConnected(q.items);
    } else if q.readOnly && !q.setsUp {
      hide CompleteRun;
      InitialShape(q.items);
      SetupFailureCompletes(q.items);
    } else {
      hide CompleteRun;
      InitialShape(q.items);
      EventsFromComplete(q, 0, INITIAL, cancelAt, [Started]);
    }
  }

  lemma NotConnected(items: seq<Item>)
    ensures CompleteRun(items, [Failed(AcquireFailed)])
  {
    RowsOfOneMore([], Failed(AcquireFailed));
    assert [] + [Failed(AcquireFailed)] == [Failed(AcquireFailed)];
    assert RowsOf([]) == [];
  }

  lemma SetupFailureCompletes(items: seq<Item>)
    ensures CompleteRun(items, [Started, Failed(SetupFailed)])
  {
    InitialShape(items);
    hide FirstSet, PhaseOf, RowsOf, TotalAffected, IsBody, SentFirstColumns, CompleteRun;
    TerminalCompletes(items, 0, [Started], Failed(SetupFailed));
    assert [Started] + [Failed(SetupFailed)] == [Started, Failed(SetupFailed)];
  }
}
