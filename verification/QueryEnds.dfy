/** With which event every run of the producer ends, and what it counts. */
module QueryEnds {
  import opened Wrappers
  import opened QueryStream
  import opened QueryGrammar

  // ----- the rows affected

  function AffectedSum(items: seq<Item>): nat
  {
    if items == [] then 0 else (if items[0].Affected? then items[0].count else 0) + AffectedSum(items[1..])
  }

  lemma {:induction false} SumOfOneMore(items: seq<Item>, item: Item)
    ensures AffectedSum(items + [item]) == AffectedSum(items) + if item.Affected? then item.count else 0
  {
    if items == [] {
      assert items + [item] == [item] && [item][1..] == [];
    } else {
      assert (items + [item])[1..] == items[1..] + [item];
      SumOfOneMore(items[1..], item);
    }
  }

  /** The counts are added up, and the sum stays at the largest 64-bit number. */
  lemma {:induction false} AffectedIsCapped(items: seq<Item>)
    ensures TotalAffected(items) ==
            if AffectedSum(items) < 0x1_0000_0000_0000_0000 then AffectedSum(items) else 0xFFFF_FFFF_FFFF_FFFF
  {
    if items != [] {
      var n := |items| - 1;
      AffectedIsCapped(items[..n]);
      SumOfOneMore(items[..n], items[n]);
      assert items[..n] + [items[n]] == items;
    }
  }

  // ----- the last event

  /** A row of a second row-producing set, or a row that does not convert. */
  predicate IsBadRow(items: seq<Item>, i: nat, failure: Failure)
  {
    && i < |items| && items[i].Row?
    && if PhaseOf(items[..i]).After? then failure == MultipleResultSets
       else items[i].cells.None? && failure == ConversionFailed
  }

  /** The first bad row, and why it is one. */
  ghost predicate IsFirstBad(items: seq<Item>, i: nat, failure: Failure)
  {
    IsBadRow(items, i, failure) && NoBadRow(items, i)
  }

  ghost predicate NoBadRow(items: seq<Item>, n: nat)
  {
    forall j: nat, failure :: j < n ==> !IsBadRow(items, j, failure)
  }

  ghost predicate IsRunEnd(q: Query, cancelAt: nat, event: Event)
  {
    if exists i: nat, failure :: i < cancelAt && IsFirstBad(q.items, i, failure) then
      exists i: nat, failure :: i < cancelAt && IsFirstBad(q.items, i, failure) && event == Failed(failure)
    else if cancelAt <= |q.items| then event == Canceled
    else if !q.endsWell then event == Failed(DriverFailed)
    else if q.readOnly && !q.tearsDown then event == Failed(TeardownFailed)
    else event == Completed(TotalAffected(q.items))
  }

  ghost predicate IsEnd(q: Query, cancelAt: nat, event: Event)
  {
    if !q.acquires then event == Failed(AcquireFailed)
    else if q.readOnly && !q.setsUp then event == Failed(SetupFailed)
    else IsRunEnd(q, cancelAt, event)
  }

  lemma ConsumeFails(items: seq<Item>, i: nat, l: Local, sent: seq<Event>)
    requires Shape(items, i, l, sent) && i < |items|
    ensures var step := Consume(l, items[i]);
            if step.finished then
              exists failure :: IsBadRow(items, i, failure) && step.events != [] && step.events[|step.events| - 1] == Failed(failure)
            else forall failure :: !IsBadRow(items, i, failure)
  {
    hide FirstSet, RowsOf, TotalAffected, IsBody, SentFirstColumns, PhaseOf;
    if Consume(l, items[i]).finished {
      assert IsBadRow(items, i, if l.completedRowResult then MultipleResultSets else ConversionFailed);
    }
  }

  lemma {:induction false} RunEndsAs(q: Query, i: nat, l: Local, cancelAt: nat, sent: seq<Event>)
    requires Shape(q.items, i, l, sent) && NoBadRow(q.items, i) && i <= cancelAt
    ensures var events := EventsFrom(q, i, l, cancelAt);
            events != [] && IsRunEnd(q, cancelAt, events[|events| - 1])
    decreases |q.items| - i
  {
    hide Shape, Consume, Finish, PhaseOf, TotalAffected, IsBadRow, NoBadRow, IsRunEnd;
    ShapeSays(q.items, i, l, sent);
    if i == cancelAt {
      CanceledIsEnd(q, cancelAt);
    } else if i == |q.items| {
      FinishEnds(q, l);
      FinishIsEnd(q, cancelAt);
    } else {
      var step := Consume(l, q.items[i]);
      ConsumeFails(q.items, i, l, sent);
      if !step.finished {
        ConsumeKeepsShape(q.items, i, l, sent);
        NoBadRowYet(q.items, i);
        RunEndsAs(q, i + 1, step.local, cancelAt, sent + step.events);
        var rest := EventsFrom(q, i + 1, step.local, cancelAt);
        assert (step.events + rest)[|step.events + rest| - 1] == rest[|rest| - 1];
      } else {
        var failure :| IsBadRow(q.items, i, failure) && step.events != [] && step.events[|step.events| - 1] == Failed(failure);
        BadIsEnd(q, i, cancelAt, failure);
        assert step.events + [] == step.events;
      }
    }
  }

  lemma ShapeSays(items: seq<Item>, i: nat, l: Local, sent: seq<Event>)
    requires Shape(items, i, l, sent)
    ensures i <= |items| && l.affectedRows == TotalAffected(items[..i]) && items[..|items|] == items
  {
  }

  lemma BadIsEnd(q: Query, i: nat, cancelAt: nat, failure: Failure)
    requires IsBadRow(q.items, i, failure) && NoBadRow(q.items, i) && i < cancelAt
    ensures IsRunEnd(q, cancelAt, Failed(failure))
  {
    hide IsBadRow, NoBadRow;
    assert IsFirstBad(q.items, i, failure);
  }

  lemma CanceledIsEnd(q: Query, cancelAt: nat)
    requires NoBadRow(q.items, cancelAt) && cancelAt <= |q.items|
    ensures IsRunEnd(q, cancelAt, Canceled)
  {
    hide IsBadRow;
  }

  lemma FinishIsEnd(q: Query, cancelAt: nat)
    requires NoBadRow(q.items, |q.items|) && |q.items| < cancelAt
    ensures IsRunEnd(
              q, cancelAt,
              if !q.endsWell then Failed(DriverFailed)
              else if q.readOnly && !q.tearsDown then Failed(TeardownFailed)
              else Completed(TotalAffected(q.items)))
  {
    hide PhaseOf, TotalAffected;
  }

  lemma NoBadRowYet(items: seq<Item>, i: nat)
    requires NoBadRow(items, i) && forall failure :: !IsBadRow(items, i, failure)
    ensures NoBadRow(items, i + 1)
  {
    hide IsBadRow;
  }

  lemma FinishEnds(q: Query, l: Local)
    ensures var events := Finish(q, l);
            events != [] && events[|events| - 1] ==
            if !q.endsWell then Failed(DriverFailed)
            else if q.readOnly && !q.tearsDown then Failed(TeardownFailed)
            else Completed(l.affectedRows)
  {
  }

  /** Every run ends as its query and the turn of its cancellation say: with the first failure, if there is one in time. */
  lemma StreamEndsAs(q: Query, cancelAt: nat)
    ensures var events := QueryEvents(q, cancelAt);
            events != [] && IsEnd(q, cancelAt, events[|events| - 1])
  {
    hide EventsFrom, Shape, IsBadRow;
    if q.acquires && !(q.readOnly && !q.setsUp) {
      InitialShape(q.items);
      RunEndsAs(q, 0, INITIAL, cancelAt, [Started]);
      var rest := EventsFrom(q, 0, INITIAL, cancelAt);
      assert ([Started] + rest)[|[Started] + rest| - 1] == rest[|rest| - 1];
    }
  }
}
