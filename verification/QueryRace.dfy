/**
 Producer and collector running side by side over a bounded channel, in every interleaving: the collector
 cancels the producer when it has seen one row too many, while the producer may be anywhere.
 */
module QueryRace {
  import opened Wrappers
  import opened QueryStream
  import opened QueryGrammar

  const CHANNEL_CAPACITY: nat := 8

  datatype Stage = Connecting | Streaming | Done

  /**
   `outbox` holds the events of the producer's current turn that are not in the channel yet: the producer
   is blocked in a send until it is empty. `received` is the collector's history.
   */
  datatype State = State(
    stage: Stage, next: nat, local: Local, outbox: seq<Event>, channel: seq<Event>, received: seq<Event>,
    cancelled: bool, external: bool, collector: Collector)

  const START := State(Connecting, 0, INITIAL, [], [], [], false, false, EMPTY)

  // ----- steps

  function Connected(q: Query, s: State): State
  {
    if !q.acquires then s.(outbox := [Failed(AcquireFailed)], stage := Done)
    else if q.readOnly && !q.setsUp then s.(outbox := [Started, Failed(SetupFailed)], stage := Done)
    else s.(outbox := [Started], stage := Streaming)
  }

  function Polled(q: Query, s: State): State
    requires s.next <= |q.items|
  {
    if s.cancelled then s.(outbox := [Canceled], stage := Done)
    else if s.next == |q.items| then s.(outbox := Finish(q, s.local), stage := Done)
    else
      var step := Consume(s.local, q.items[s.next]);
      s.(local := step.local, outbox := step.events, next := s.next + 1,
         stage := if step.finished then Done else Streaming)
  }

  predicate Connects(q: Query, s: State, s': State) { s.stage.Connecting? && s' == Connected(q, s) }

  predicate Polls(q: Query, s: State, s': State)
  {
    s.stage.Streaming? && s.outbox == [] && s.next <= |q.items| && s' == Polled(q, s)
  }

  predicate Sends(s: State, s': State)
  {
    && s.outbox != [] && |s.channel| < CHANNEL_CAPACITY
    && s' == s.(channel := s.channel + [s.outbox[0]], outbox := s.outbox[1..])
  }

  predicate Receives(limit: nat, s: State, s': State)
  {
    && s.channel != [] && !s.collector.done
    && var c := Collect(s.collector, s.channel[0], limit);
       s' == s.(channel := s.channel[1..], received := s.received + [s.channel[0]], collector := c,
                cancelled := s.cancelled || c.canceledForLimit)
  }

  predicate IsCancelledFromOutside(s: State, s': State)
  {
    !s.external && s' == s.(external := true, cancelled := true)
  }

  predicate Next(q: Query, limit: nat, s: State, s': State)
  {
    || Connects(q, s, s')
    || Polls(q, s, s')
    || Sends(s, s')
    || Receives(limit, s, s')
    || IsCancelledFromOutside(s, s')
  }

  predicate IsRun(q: Query, limit: nat, run: seq<State>)
  {
    run != [] && run[0] == START && forall i :: 0 <= i < |run| - 1 ==> Next(q, limit, run[i], run[i + 1])
  }

  // ----- the invariant

  function Sent(s: State): seq<Event> { s.received + s.channel + s.outbox }

  predicate ProducerIsRight(q: Query, s: State)
  {
    match s.stage
    case Connecting => Sent(s) == [] && s.next == 0 && s.local == INITIAL
    case Streaming => s.next <= |q.items| && Shape(q.items, s.next, s.local, Sent(s))
    case Done => CompleteRun(q.items, Sent(s))
  }

  predicate CancelIsExplained(s: State)
  {
    && s.cancelled == (s.external || s.collector.canceledForLimit)
    && (Canceled in Sent(s) ==> s.cancelled)
  }

  predicate Invariant(q: Query, limit: nat, s: State)
  {
    && ProducerIsRight(q, s)
    && CancelIsExplained(s)
    && s.collector == CollectAll(s.received, limit)
  }

  lemma SendKeeps(q: Query, limit: nat, s: State, s': State)
    requires Invariant(q, limit, s) && Sends(s, s')
    ensures Invariant(q, limit, s')
  {
    hide Shape, CompleteRun, CollectAll;
    assert s.outbox == [s.outbox[0]] + s.outbox[1..];
    assert Sent(s') == Sent(s);
  }

  lemma ReceiveKeeps(q: Query, limit: nat, s: State, s': State)
    requires Invariant(q, limit, s) && Receives(limit, s, s')
    ensures Invariant(q, limit, s')
  {
    hide Shape, CompleteRun, Collect;
    assert s.channel == [s.channel[0]] + s.channel[1..];
    assert Sent(s') == Sent(s);
    assert s'.received[..|s.received|] == s.received;
    CancelStays(s.collector, s.channel[0], limit);
  }

  lemma {:induction false} TakeCancelStays(c: Collector, rows: seq<Cells>, limit: nat)
    ensures c.canceledForLimit ==> Take(c, rows, limit).canceledForLimit
    decreases |rows|
  {
    if rows != [] && |c.rows| < limit {
      TakeCancelStays(c.(rows := c.rows + [rows[0]]), rows[1..], limit);
    }
  }

  lemma CancelStays(c: Collector, event: Event, limit: nat)
    ensures c.canceledForLimit ==> Collect(c, event, limit).canceledForLimit
  {
    if event.Batch? {
      TakeCancelStays(c, event.rows, limit);
    }
  }

  lemma ConnectKeeps(q: Query, limit: nat, s: State, s': State)
    requires Invariant(q, limit, s) && Connects(q, s, s')
    ensures Invariant(q, limit, s')
  {
    hide Shape, CompleteRun, CollectAll;
    NotConnected(q.items);
    SetupFailureCompletes(q.items);
    InitialShape(q.items);
    assert Sent(s') == s'.outbox;
  }

  lemma ConsumeNeverCancels(l: Local, item: Item)
    ensures Canceled !in Consume(l, item).events
  {
  }

  lemma PollKeeps(q: Query, limit: nat, s: State, s': State)
    requires Invariant(q, limit, s) && Polls(q, s, s')
    ensures Invariant(q, limit, s')
  {
    hide Shape, CompleteRun, CollectAll, Consume, Finish;
    assert Sent(s') == Sent(s) + s'.outbox;
    if s.cancelled {
      CancelCompletes(q.items, s.next, s.local, Sent(s));
    } else if s.next == |q.items| {
      FinishCompletes(q, s.local, Sent(s));
      FinishNeverCancels(q, s.local);
    } else {
      ConsumeKeepsShape(q.items, s.next, s.local, Sent(s));
      ConsumeNeverCancels(s.local, q.items[s.next]);
    }
  }

  lemma FinishNeverCancels(q: Query, l: Local)
    ensures Canceled !in Finish(q, l)
  {
  }

  lemma NextKeeps(q: Query, limit: nat, s: State, s': State)
    requires Invariant(q, limit, s) && Next(q, limit, s, s')
    ensures Invariant(q, limit, s')
  {
    hide Shape, CompleteRun, CollectAll, Connects, Polls, Sends, Receives, Invariant;
    if Connects(q, s, s') {
      ConnectKeeps(q, limit, s, s');
    } else if Polls(q, s, s') {
      PollKeeps(q, limit, s, s');
    } else if Sends(s, s') {
      SendKeeps(q, limit, s, s');
    } else if Receives(limit, s, s') {
      ReceiveKeeps(q, limit, s, s');
    } else {
      OutsideKeeps(q, limit, s, s');
    }
  }

  lemma OutsideKeeps(q: Query, limit: nat, s: State, s': State)
    requires Invariant(q, limit, s) && IsCancelledFromOutside(s, s')
    ensures Invariant(q, limit, s')
  {
    hide Shape, CompleteRun, CollectAll;
  }

  lemma {:induction false} RunKeepsInvariant(q: Query, limit: nat, run: seq<State>, i: nat)
    requires IsRun(q, limit, run) && i < |run|
    ensures Invariant(q, limit, run[i])
  {
    hide Next, Invariant;
    if i == 0 {
      StartIsRight(q, limit);
    } else {
      RunKeepsInvariant(q, limit, run, i - 1);
      assert Next(q, limit, run[i - 1], run[i - 1 + 1]);
      NextKeeps(q, limit, run[i - 1], run[i]);
    }
  }

  lemma StartIsRight(q: Query, limit: nat)
    ensures Invariant(q, limit, START)
  {
  }

  // ----- the producer's events

  /** What has been sent is what the producer sends, up to the turn it has come to. */
  ghost predicate FollowsProducer(q: Query, s: State)
  {
    match s.stage
    case Connecting => Sent(s) == [] && s.next == 0 && s.local == INITIAL
    case Streaming =>
      s.next <= |q.items| &&
      forall cancelAt: nat :: cancelAt >= s.next ==>
        QueryEvents(q, cancelAt) == Sent(s) + EventsFrom(q, s.next, s.local, cancelAt)
    case Done => exists cancelAt: nat :: QueryEvents(q, cancelAt) == Sent(s)
  }

  lemma ConnectFollows(q: Query, s: State, s': State)
    requires FollowsProducer(q, s) && Connects(q, s, s') && Sent(s) == []
    ensures FollowsProducer(q, s')
  {
    hide EventsFrom;
    assert s.received == [] && s.channel == [] && s.outbox == [];
    assert Sent(s') == s'.outbox;
    if s'.stage.Done? {
      assert QueryEvents(q, 0) == Sent(s');
    }
  }

  lemma PollFollows(q: Query, s: State, s': State)
    requires FollowsProducer(q, s) && Polls(q, s, s')
    ensures FollowsProducer(q, s')
  {
    hide QueryEvents, EventsFrom, Consume, Finish;
    var sent := Sent(s);
    assert sent == s.received + s.channel && Sent(s') == sent + s'.outbox;
    forall cancelAt: nat | cancelAt >= s.next
      ensures QueryEvents(q, cancelAt) == sent + EventsFrom(q, s.next, s.local, cancelAt)
    {
    }
    if s.cancelled {
      EventsFromStep(q, s.next, s.local, s.next, sent);
      assert QueryEvents(q, s.next) == Sent(s');
    } else if s.next == |q.items| {
      EventsFromStep(q, s.next, s.local, s.next + 1, sent);
      assert QueryEvents(q, s.next + 1) == Sent(s');
    } else {
      var step := Consume(s.local, q.items[s.next]);
      forall cancelAt: nat | cancelAt > s.next
        ensures QueryEvents(q, cancelAt) ==
                if step.finished then Sent(s') else Sent(s') + EventsFrom(q, s.next + 1, step.local, cancelAt)
      {
        EventsFromStep(q, s.next, s.local, cancelAt, sent);
      }
      assert step.finished ==> QueryEvents(q, s.next + 1) == Sent(s');
    }
  }

  lemma OthersFollow(q: Query, limit: nat, s: State, s': State)
    requires FollowsProducer(q, s) && (Sends(s, s') || Receives(limit, s, s') || IsCancelledFromOutside(s, s'))
    ensures FollowsProducer(q, s')
  {
    hide QueryEvents, EventsFrom, Collect;
    if Sends(s, s') {
      assert s.outbox == [s.outbox[0]] + s.outbox[1..];
    } else if Receives(limit, s, s') {
      assert s.channel == [s.channel[0]] + s.channel[1..];
    }
    assert Sent(s') == Sent(s);
  }

  /**
   In every run the channel holds at most eight events, and what the collector has received, with what is on its
   way, are the producer's events; when the producer is done they are all it sends for some turn of cancellation.
   */
  lemma {:induction false} RunsFollowTheProducer(q: Query, limit: nat, run: seq<State>, i: nat)
    requires IsRun(q, limit, run) && i < |run|
    ensures |run[i].channel| <= 8 && FollowsProducer(q, run[i])
  {
    if i > 0 {
      RunsFollowTheProducer(q, limit, run, i - 1);
      var s, s' := run[i - 1], run[i];
      assert Next(q, limit, run[i - 1], run[i - 1 + 1]);
      hide FollowsProducer, IsRun;
      ChannelIsBounded(q, limit, s, s');
      if Connects(q, s, s') {
        NothingSentYet(q, s);
        ConnectFollows(q, s, s');
      } else if Polls(q, s, s') {
        PollFollows(q, s, s');
      } else {
        OthersFollow(q, limit, s, s');
      }
    }
  }

  lemma NothingSentYet(q: Query, s: State)
    requires FollowsProducer(q, s) && s.stage.Connecting?
    ensures Sent(s) == []
  {
  }

  lemma ChannelIsBounded(q: Query, limit: nat, s: State, s': State)
    requires |s.channel| <= 8 && Next(q, limit, s, s')
    ensures |s'.channel| <= 8
  {
    hide Collect, Consume, Finish;
  }

  /** A cancellation from outside may come at any moment, once. */
  lemma OutsideMayCancel(q: Query, limit: nat, s: State)
    requires !s.external
    ensures Next(q, limit, s, s.(external := true, cancelled := true))
  {
  }

  // ----- what the collector has

  function Limited(rows: seq<Cells>, limit: nat): seq<Cells> { if |rows| <= limit then rows else rows[..limit] }

  /** The collector's rows and flags tell of the rows received. */
  predicate Counts(c: Collector, rows: seq<Cells>, limit: nat)
  {
    c.rows == Limited(rows, limit) && c.truncated == (|rows| > limit) && c.canceledForLimit == c.truncated
  }

  lemma {:induction false} TakeCounts(c: Collector, rows: seq<Cells>, batch: seq<Cells>, limit: nat)
    requires Counts(c, rows, limit)
    ensures Counts(Take(c, batch, limit), rows + batch, limit)
    ensures var t := Take(c, batch, limit);
            t.error == c.error && t.done == c.done && t.columns == c.columns && t.affectedRows == c.affectedRows
    decreases |batch|
  {
    if batch == [] {
      assert rows + batch == rows;
    } else if |c.rows| >= limit {
      assert (rows + batch)[..limit] == rows[..limit];
    } else {
      assert rows + batch == rows + [batch[0]] + batch[1..];
      TakeCounts(c.(rows := c.rows + [batch[0]]), rows + [batch[0]], batch[1..], limit);
    }
  }

  predicate NoEarlyTerminal(events: seq<Event>)
  {
    forall i :: 0 <= i < |events| - 1 ==> !IsTerminal(events[i])
  }

  /** What the last event makes of the error. */
  function ErrorOf(events: seq<Event>, limit: nat): Option<Event>
  {
    if events == [] then None
    else
      var last := events[|events| - 1];
      if last.Failed? || (last.Canceled? && |RowsOf(events)| <= limit) then Some(last) else None
  }

  lemma {:induction false} CollectedFacts(events: seq<Event>, limit: nat)
    requires NoEarlyTerminal(events)
    ensures var c := CollectAll(events, limit);
            && Counts(c, RowsOf(events), limit)
            && c.done == (events != [] && IsTerminal(events[|events| - 1]))
            && c.error == ErrorOf(events, limit)
            && (events != [] && events[|events| - 1].Completed? ==> c.affectedRows == events[|events| - 1].affectedRows)
    decreases |events|
  {
    hide Take, Counts;
    if events == [] {
      NothingCounted(limit);
    } else {
      var n := |events| - 1;
      CollectedFacts(events[..n], limit);
      if n > 0 {
        assert !IsTerminal(events[n - 1]);
      }
      var before := CollectAll(events[..n], limit);
      OneMoreCounts(before, RowsOf(events[..n]), events[n], limit);
    }
  }

  lemma NothingCounted(limit: nat)
    ensures Counts(EMPTY, [], limit)
  {
  }

  lemma OneMoreCounts(c: Collector, rows: seq<Cells>, event: Event, limit: nat)
    requires Counts(c, rows, limit) && !c.done && c.error.None?
    ensures var after := Collect(c, event, limit);
            && Counts(after, rows + (if event.Batch? then event.rows else []), limit)
            && after.done == IsTerminal(event)
            && after.error == (if event.Failed? || (event.Canceled? && |rows| <= limit) then Some(event) else None)
            && (event.Completed? ==> after.affectedRows == event.affectedRows)
  {
    hide Take;
    assert rows + [] == rows;
    if event.Batch? {
      TakeCounts(c, rows, event.rows, limit);
    }
  }

  lemma CompleteEndsOnce(items: seq<Item>, events: seq<Event>)
    requires CompleteRun(items, events)
    ensures events != [] && IsTerminal(events[|events| - 1]) && NoEarlyTerminal(events)
  {
    hide TellsFirstSet, HasFirstColumns;
    forall i | 0 <= i < |events| - 1 ensures !IsTerminal(events[i]) {
      assert events[i] == events[..|events| - 1][i];
    }
  }

  lemma SentHasNoEarlyTerminal(q: Query, s: State)
    requires ProducerIsRight(q, s)
    ensures NoEarlyTerminal(Sent(s))
    ensures !s.stage.Done? ==> forall i :: 0 <= i < |Sent(s)| ==> !IsTerminal(Sent(s)[i])
  {
    match s.stage {
      case Connecting =>
      case Streaming =>
      case Done => CompleteEndsOnce(q.items, Sent(s));
    }
  }

  lemma ReceivedIsPrefix(s: State)
    ensures forall i :: 0 <= i < |s.received| ==> Sent(s)[i] == s.received[i]
    ensures |s.received| == |Sent(s)| ==> s.channel == [] && s.outbox == [] && s.received == Sent(s)
    ensures s.channel == [] && s.outbox == [] ==> Sent(s) == s.received
  {
  }

  /** When the collector is done, it has received everything, and nothing is left to send. */
  lemma DoneReceivedAll(q: Query, limit: nat, s: State)
    requires Invariant(q, limit, s) && s.collector.done
    ensures s.stage.Done? && s.channel == [] && s.outbox == [] && s.received == Sent(s)
    ensures NoEarlyTerminal(s.received)
  {
    hide Shape, CompleteRun, CollectAll;
    SentHasNoEarlyTerminal(q, s);
    ReceivedIsPrefix(s);
    hide Sent;
    CollectedFacts(s.received, limit);
    var n := |s.received| - 1;
    assert IsTerminal(Sent(s)[n]);
  }

  /**
   In every interleaving, when the collector is done: its rows are the first rows of the first
   row-producing set, at most `limit` of them; without an error they are exactly the first
   min(n, limit) rows, and `truncated` says whether there were more. An error is a failure of the producer
   or, when something else cancelled the query, its cancellation.
   */
  lemma CollectedResultIsExact(q: Query, limit: nat, run: seq<State>, i: nat)
    requires IsRun(q, limit, run) && i < |run| && run[i].collector.done
    ensures var c, all := run[i].collector, FirstSet(q.items);
            && c.rows <= all && |c.rows| <= limit
            && (c.error.None? ==> c.rows == Limited(all, limit) && c.truncated == (|all| > limit))
            && (c.error.None? && !c.truncated ==> c.affectedRows == TotalAffected(q.items))
            && (c.error.Some? ==> c.error.value.Failed? || (c.error.value.Canceled? && run[i].external))
  {
    hide Shape, CollectAll, FirstSet, RowsOf, TotalAffected;
    var s := run[i];
    RunKeepsInvariant(q, limit, run, i);
    DoneReceivedAll(q, limit, s);
    CollectedFacts(s.received, limit);
    CompleteTells(q, s);
    ResultFromEvents(q, limit, s);
  }

  lemma CompleteTells(q: Query, s: State)
    requires ProducerIsRight(q, s) && s.stage.Done? && s.received == Sent(s)
    ensures s.received != [] && TellsFirstSet(s.received, q.items)
  {
    CompleteEndsOnce(q.items, s.received);
  }

  lemma ResultFromEvents(q: Query, limit: nat, s: State)
    requires s.received != [] && TellsFirstSet(s.received, q.items) && IsTerminal(s.received[|s.received| - 1])
    requires Counts(s.collector, RowsOf(s.received), limit) && s.collector.error == ErrorOf(s.received, limit)
    requires s.received[|s.received| - 1].Completed? ==>
               s.collector.affectedRows == s.received[|s.received| - 1].affectedRows
    requires CancelIsExplained(s) && s.received == Sent(s)
    ensures var c, all := s.collector, FirstSet(q.items);
            && c.rows <= all && |c.rows| <= limit
            && (c.error.None? ==> c.rows == Limited(all, limit) && c.truncated == (|all| > limit))
            && (c.error.None? && !c.truncated ==> c.affectedRows == TotalAffected(q.items))
            && (c.error.Some? ==> c.error.value.Failed? || (c.error.value.Canceled? && s.external))
  {
    hide FirstSet, RowsOf, TotalAffected, Sent;
    var last, got, all := s.received[|s.received| - 1], RowsOf(s.received), FirstSet(q.items);
    assert got <= all;
    if |got| > limit {
      assert all[..limit] == got[..limit];
    }
    if last.Canceled? {
      assert last in s.received;
    }
  }

  // ----- runs end

  /** A bound on the steps still to come. */
  function Rank(q: Query, s: State): int
  {
    (match s.stage
     case Connecting => 6 * (|q.items| + 2)
     case Streaming => 6 * (|q.items| - s.next + 1)
     case Done => 0)
    + 2 * |s.outbox| + |s.channel| + (if s.external then 0 else 1)
  }

  lemma AtMostTwoEvents(q: Query, l: Local, item: Item)
    ensures |Consume(l, item).events| <= 2 && |Finish(q, l)| <= 2
  {
  }

  /** Every step brings the end nearer. */
  lemma StepsRunOut(q: Query, limit: nat, s: State, s': State)
    requires Invariant(q, limit, s) && Next(q, limit, s, s')
    ensures 0 <= Rank(q, s') < Rank(q, s)
  {
    hide Shape, CompleteRun, CollectAll, Consume, Finish, Collect;
    if Connects(q, s, s') {
      assert s.outbox == [];
    } else if Polls(q, s, s') {
      if s.next < |q.items| {
        AtMostTwoEvents(q, s.local, q.items[s.next]);
      } else {
        AtMostTwoEvents(q, s.local, Affected(0));
      }
    }
  }

  /** The run can go on by itself: by a step that is no cancellation from outside. */
  ghost predicate CanMove(q: Query, limit: nat, s: State)
  {
    exists s' :: Next(q, limit, s, s') && s'.external == s.external
  }

  lemma CanReceive(q: Query, limit: nat, s: State)
    requires s.channel != [] && !s.collector.done
    ensures CanMove(q, limit, s)
  {
    hide Connects, Polls, Sends, Collect;
    var c := Collect(s.collector, s.channel[0], limit);
    var s' := s.(channel := s.channel[1..], received := s.received + [s.channel[0]], collector := c,
                 cancelled := s.cancelled || c.canceledForLimit);
    assert Receives(limit, s, s');
    assert Next(q, limit, s, s') && s'.external == s.external;
  }

  lemma CanSend(q: Query, limit: nat, s: State)
    requires s.outbox != [] && s.channel == []
    ensures CanMove(q, limit, s)
  {
    hide Connects, Polls, Receives;
    var s' := s.(channel := s.channel + [s.outbox[0]], outbox := s.outbox[1..]);
    assert Sends(s, s');
    assert Next(q, limit, s, s') && s'.external == s.external;
  }

  lemma CanConnect(q: Query, limit: nat, s: State)
    requires s.stage.Connecting?
    ensures CanMove(q, limit, s)
  {
    hide Polls, Sends, Receives;
    assert Connects(q, s, Connected(q, s));
    assert Next(q, limit, s, Connected(q, s)) && Connected(q, s).external == s.external;
  }

  lemma CanPoll(q: Query, limit: nat, s: State)
    requires s.stage.Streaming? && s.outbox == [] && s.next <= |q.items|
    ensures CanMove(q, limit, s)
  {
    hide Connects, Sends, Receives, Consume, Finish;
    assert Polls(q, s, Polled(q, s));
    assert Next(q, limit, s, Polled(q, s)) && Polled(q, s).external == s.external;
  }

  /** All sent, all received, and the producer done: then the collector has seen the terminal event. */
  lemma DrainedIsDone(q: Query, limit: nat, s: State)
    requires Invariant(q, limit, s) && s.stage.Done? && s.channel == [] && s.outbox == []
    ensures s.collector.done
  {
    hide CompleteRun, CollectAll, Counts, RowsOf;
    assert Sent(s) == s.received;
    CompleteEndsOnce(q.items, s.received);
    CollectedFacts(s.received, limit);
  }

  /** While the collector waits, the producer, the channel or the collector can move. */
  lemma NeverStuck(q: Query, limit: nat, s: State)
    requires Invariant(q, limit, s) && !s.collector.done
    ensures CanMove(q, limit, s)
  {
    hide CanMove, Shape, CompleteRun, CollectAll, CancelIsExplained;
    if s.channel != [] {
      CanReceive(q, limit, s);
    } else if s.outbox != [] {
      CanSend(q, limit, s);
    } else if s.stage.Connecting? {
      CanConnect(q, limit, s);
    } else if s.stage.Streaming? {
      CanPoll(q, limit, s);
    } else {
      DrainedIsDone(q, limit, s);
    }
  }

  /** Once the collector is done, nothing is left that could move. */
  lemma DoneIsStill(q: Query, limit: nat, s: State)
    requires Invariant(q, limit, s) && s.collector.done
    ensures !CanMove(q, limit, s)
  {
    hide Shape, CompleteRun, CollectAll, Invariant;
    DoneReceivedAll(q, limit, s);
  }

  lemma {:induction false} RunsAreBounded(q: Query, limit: nat, run: seq<State>, i: nat)
    requires IsRun(q, limit, run) && i < |run|
    ensures 0 <= Rank(q, run[i]) <= Rank(q, START) - i
  {
    hide Next, Invariant, Rank;
    if i == 0 {
      StartRank(q);
    } else {
      RunsAreBounded(q, limit, run, i - 1);
      RunKeepsInvariant(q, limit, run, i - 1);
      assert Next(q, limit, run[i - 1], run[i - 1 + 1]);
      StepsRunOut(q, limit, run[i - 1], run[i]);
    }
  }

  lemma StartRank(q: Query)
    ensures Rank(q, START) >= 0
  {
  }

  /** No run goes on for ever, and it can go on by itself exactly until the collector is done. */
  lemma EveryRunDelivers(q: Query, limit: nat, run: seq<State>)
    requires IsRun(q, limit, run)
    ensures |run| <= Rank(q, START) + 1
    ensures CanMove(q, limit, run[|run| - 1]) <==> !run[|run| - 1].collector.done
  {
    hide Next, Invariant, Rank, CanMove;
    var last := run[|run| - 1];
    RunsAreBounded(q, limit, run, |run| - 1);
    RunKeepsInvariant(q, limit, run, |run| - 1);
    if last.collector.done {
      DoneIsStill(q, limit, last);
    } else {
      NeverStuck(q, limit, last);
    }
  }
}
