/** Assembly of ordered binlog events into transactions, and the totals derived from them. */
module Assembler {
  import opened Wrappers
  import opened Binlog
  import Repository
  import Text

  /** A transaction still waiting for its boundary. */
  datatype PendingTransaction = PendingTransaction(
    gtid: Option<string>,
    xid: Option<nat>,
    location: Location,
    explicit: bool,
    changes: seq<Change>)

  datatype State = State(
    transactions: seq<Transaction>,
    pending: Option<PendingTransaction>,
    nextSequence: nat,
    rowsQuery: Option<string>)

  const INITIAL := State([], None, 1, None)

  // ----- table totals

  const ZERO := Counts(0, 0, 0, 0, 0)

  function At(tables: map<TableKey, Counts>, key: TableKey): Counts
  {
    if key in tables then tables[key] else ZERO
  }

  function Counted(counts: Counts, change: Change): Counts
  {
    var total := counts.(rows := counts.rows + change.rowCount);
    match change.operation
    case Insert => total.(inserts := total.inserts + change.rowCount)
    case Update => total.(updates := total.updates + change.rowCount)
    case Delete => total.(deletes := total.deletes + change.rowCount)
    case Ddl => total.(ddl := total.ddl + 1)
  }

  function Tallied(tables: map<TableKey, Counts>, change: Change): map<TableKey, Counts>
  {
    if change.table == "" then tables else tables[Key(change) := Counted(At(tables, Key(change)), change)]
  }

  function Totals(changes: seq<Change>): map<TableKey, Counts>
  {
    if changes == [] then map[] else Tallied(Totals(changes[..|changes| - 1]), changes[|changes| - 1])
  }

  method SummarizeTransactionTables(changes: seq<Change>) returns (tables: map<TableKey, Counts>)
    ensures tables == Totals(changes)
  {
    tables := map[];
    for i := 0 to |changes|
      invariant tables == Totals(changes[..i])
    {
      assert changes[..i + 1][..i] == changes[..i];
      if changes[i].table == "" {
        continue;
      }
      tables := tables[Key(changes[i]) := Counted(At(tables, Key(changes[i])), changes[i])];
    }
    assert changes[..|changes|] == changes;
  }

  // ----- events as state transitions

  function NewPending(location: Location): PendingTransaction
  {
    PendingTransaction(None, None, location, false, [])
  }

  function EnsurePending(s: State, location: Location): State
  {
    if s.pending.None? then s.(pending := Some(NewPending(location))) else s
  }

  function UpdateEnd(s: State, location: Location): State
  {
    match s.pending
    case None => s
    case Some(p) => s.(pending := Some(p.(location := p.location.(end := location.end))))
  }

  function Finish(s: State, status: Status): State
  {
    match s.pending
    case None => s
    case Some(p) =>
      State(s.transactions + [Transaction(s.nextSequence, p.gtid, p.xid, p.location, status,
                                          SumRows(p.changes), Totals(p.changes), p.changes)],
            None, s.nextSequence + 1, None)
  }

  function OnGtid(s: State, gtid: string, location: Location): State
  {
    Finish(s, Incomplete).(pending := Some(NewPending(location).(gtid := Some(gtid))))
  }

  function OnBegin(s: State, location: Location): State
  {
    var open := UpdateEnd(EnsurePending(s, location), location);
    open.(pending := Some(open.pending.value.(explicit := true)))
  }

  function AddChange(s: State, change: Change, location: Location): State
  {
    var open := UpdateEnd(EnsurePending(s, location), location);
    open.(pending := Some(open.pending.value.(changes := open.pending.value.changes + [change])))
  }

  function OnRows(s: State, change: Change, location: Location): State
  {
    if change.sql.None?
    then AddChange(s.(rowsQuery := None), change.(sql := s.rowsQuery), location)
    else AddChange(s, change, location)
  }

  datatype Boundary = Begin | Commit | Rollback | NoBoundary

  function LowerCase(c: char): char
  {
    if 'A' <= c <= 'Z' then (c as int + 32) as char else c
  }

  predicate SameIgnoringCase(left: string, right: string)
  {
    |left| == |right| && forall i :: 0 <= i < |left| ==> LowerCase(left[i]) == LowerCase(right[i])
  }

  function TrimSemicolons(text: string): string
  {
    if text != [] && text[|text| - 1] == ';' then TrimSemicolons(text[..|text| - 1]) else text
  }

  function BoundaryOf(query: string): Boundary
  {
    var normalized := Text.Trim(TrimSemicolons(Text.Trim(query)));
    if SameIgnoringCase(normalized, "BEGIN") || SameIgnoringCase(normalized, "START TRANSACTION") then Begin
    else if SameIgnoringCase(normalized, "COMMIT") then Commit
    else if SameIgnoringCase(normalized, "ROLLBACK") then Rollback
    else NoBoundary
  }

  /** `classified` is the statement classifier's answer for the normalized text. */
  function OnQuery(s: State, query: string, classified: Option<Change>, location: Location): State
  {
    OnStatement(s, BoundaryOf(query), classified, location)
  }

  function OnStatement(s: State, boundary: Boundary, classified: Option<Change>, location: Location): State
  {
    match boundary
    case Begin => OnBegin(s, location)
    case Commit => Finish(UpdateEnd(s, location), Committed)
    case Rollback => Finish(UpdateEnd(s, location), RolledBack)
    case NoBoundary =>
      if classified.None? then UpdateEnd(s, location)
      else
        var added := AddChange(s, classified.value, location);
        if classified.value.operation.Ddl? || Autocommits(added.pending.value)
        then Finish(added, Committed) else added
  }

  predicate Autocommits(p: PendingTransaction) { p.gtid.None? && !p.explicit }

  function OnXid(s: State, xid: nat, location: Location): State
  {
    var open := UpdateEnd(EnsurePending(s, location), location);
    Finish(open.(pending := Some(open.pending.value.(xid := Some(xid)))), Committed)
  }

  datatype Event =
    | Gtid(gtid: string, location: Location)
    | RowsQuery(text: string)
    | Rows(change: Change, location: Location)
    | Query(query: string, classified: Option<Change>, location: Location)
    | Xid(xid: nat, location: Location)
    | Other(location: Location)

  function On(s: State, event: Event): State
  {
    Act(s, event, if event.Query? then BoundaryOf(event.query) else NoBoundary)
  }

  function Act(s: State, event: Event, boundary: Boundary): State
  {
    match event
    case Gtid(gtid, location) => OnGtid(s, gtid, location)
    case RowsQuery(text) => s.(rowsQuery := Some(text))
    case Rows(change, location) => OnRows(s, change, location)
    case Query(_, classified, location) => OnStatement(s, boundary, classified, location)
    case Xid(xid, location) => OnXid(s, xid, location)
    case Other(location) => UpdateEnd(s, location)
  }

  function Run(events: seq<Event>): State
  {
    if events == [] then INITIAL else On(Run(events[..|events| - 1]), events[|events| - 1])
  }

  /** Everything assembled once the input ends. */
  function Assembled(events: seq<Event>): seq<Transaction>
  {
    Finish(Run(events), Incomplete).transactions
  }

  // ----- the assembler object

  class TransactionAssembler {
    var transactions: seq<Transaction>
    var pending: Option<PendingTransaction>
    var nextSequence: nat
    var pendingRowsQuery: Option<string>

    ghost function View(): State
      reads this
    {
      State(transactions, pending, nextSequence, pendingRowsQuery)
    }

    constructor ()
      ensures View() == INITIAL
    {
      transactions, pending, nextSequence, pendingRowsQuery := [], None, 1, None;
    }

    method EnsurePendingAt(location: Location)
      modifies this
      ensures View() == EnsurePending(old(View()), location)
    {
      if pending.None? {
        pending := Some(NewPending(location));
      }
    }

    method UpdateEndAt(location: Location)
      modifies this
      ensures View() == UpdateEnd(old(View()), location)
    {
      if pending.Some? {
        pending := Some(pending.value.(location := pending.value.location.(end := location.end)));
      }
    }

    method FinishPending(status: Status)
      modifies this
      ensures View() == Finish(old(View()), status)
    {
      if pending.None? {
        return;
      }
      var p := pending.value;
      pending, pendingRowsQuery := None, None;
      var sequence := nextSequence;
      nextSequence := nextSequence + 1;
      var tables := SummarizeTransactionTables(p.changes);
      transactions := transactions +
        [Transaction(sequence, p.gtid, p.xid, p.location, status, SumRows(p.changes), tables, p.changes)];
    }

    method HandleGtid(gtid: string, location: Location)
      modifies this
      ensures View() == OnGtid(old(View()), gtid, location)
    {
      if pending.Some? {
        FinishPending(Incomplete);
      }
      pending := Some(NewPending(location).(gtid := Some(gtid)));
    }

    method HandleBegin(location: Location)
      modifies this
      ensures View() == OnBegin(old(View()), location)
    {
      EnsurePendingAt(location);
      var p := pending.value;
      pending := Some(p.(explicit := true, location := p.location.(end := location.end)));
    }

    method HandleRowsQuery(text: string)
      modifies this
      ensures View() == On(old(View()), RowsQuery(text))
    {
      pendingRowsQuery := Some(text);
    }

    method HandleRows(change: Change, location: Location)
      modifies this
      ensures View() == OnRows(old(View()), change, location)
    {
      EnsurePendingAt(location);
      var filled := change;
      if change.sql.None? {
        filled := change.(sql := pendingRowsQuery);
        pendingRowsQuery := None;
      }
      var p := pending.value;
      pending := Some(p.(location := p.location.(end := location.end), changes := p.changes + [filled]));
    }

    method HandleQuery(query: string, classified: Option<Change>, location: Location)
      modifies this
      ensures View() == OnQuery(old(View()), query, classified, location)
    {
      match BoundaryOf(query) {
        case Begin =>
          HandleBegin(location);
        case Commit =>
          UpdateEndAt(location);
          FinishPending(Committed);
        case Rollback =>
          UpdateEndAt(location);
          FinishPending(RolledBack);
        case NoBoundary =>
          if classified.None? {
            UpdateEndAt(location);
          } else {
            EnsurePendingAt(location);
            var p := pending.value;
            pending := Some(p.(location := p.location.(end := location.end), changes := p.changes + [classified.value]));
            if classified.value.operation.Ddl? || (p.gtid.None? && !p.explicit) {
              FinishPending(Committed);
            }
          }
      }
    }

    method HandleXid(xid: nat, location: Location)
      modifies this
      ensures View() == OnXid(old(View()), xid, location)
    {
      EnsurePendingAt(location);
      var p := pending.value;
      pending := Some(p.(xid := Some(xid), location := p.location.(end := location.end)));
      FinishPending(Committed);
    }

    method IntoTransactions() returns (result: seq<Transaction>)
      modifies this
      ensures result == Finish(old(View()), Incomplete).transactions
    {
      if pending.Some? {
        FinishPending(Incomplete);
      }
      result := transactions;
    }
  }

  /** Feeds a whole event stream to one assembler. */
  method Assemble(events: seq<Event>) returns (transactions: seq<Transaction>)
    ensures transactions == Assembled(events)
  {
    hide OnGtid, OnRows, OnStatement, OnXid, UpdateEnd, BoundaryOf, Finish;
    var assembler := new TransactionAssembler();
    for i := 0 to |events|
      invariant assembler.View() == Run(events[..i])
    {
      assert events[..i + 1][..i] == events[..i];
      match events[i] {
        case Gtid(gtid, location) => assembler.HandleGtid(gtid, location);
        case RowsQuery(text) => assembler.HandleRowsQuery(text);
        case Rows(change, location) => assembler.HandleRows(change, location);
        case Query(query, classified, location) => assembler.HandleQuery(query, classified, location);
        case Xid(xid, location) => assembler.HandleXid(xid, location);
        case Other(location) => assembler.UpdateEndAt(location);
      }
    }
    assert events[..|events|] == events;
    transactions := assembler.IntoTransactions();
  }

  // ----- boundary statements by their text

  /** The keyword in any letter case. */
  predicate IsCaseVariant(text: string, keyword: string)
  {
    |text| == |keyword| &&
    forall i :: 0 <= i < |text| ==>
      text[i] == keyword[i] || ('A' <= keyword[i] <= 'Z' && text[i] as int == keyword[i] as int + 32)
  }

  predicate AreSemicolons(text: string) { forall i :: 0 <= i < |text| ==> text[i] == ';' }

  /** The keyword in any letter case, with whitespace around it and semicolons behind it. */
  ghost predicate Writes(query: string, keyword: string)
  {
    exists before, word, middle, semicolons, behind ::
      IsWriting(query, keyword, before, word, middle, semicolons, behind)
  }

  predicate IsWriting(
    query: string, keyword: string, before: string, word: string, middle: string, semicolons: string, behind: string)
  {
    && query == before + word + middle + semicolons + behind
    && Text.IsBlank(before) && IsCaseVariant(word, keyword) && Text.IsBlank(middle) && AreSemicolons(semicolons)
    && Text.IsBlank(behind)
  }

  ghost function MeantBoundary(query: string): Boundary
  {
    if Writes(query, "BEGIN") || Writes(query, "START TRANSACTION") then Begin
    else if Writes(query, "COMMIT") then Commit
    else if Writes(query, "ROLLBACK") then Rollback
    else NoBoundary
  }

  /** The boundary a statement event stands for. */
  ghost function BoundaryFor(event: Event): Boundary
  {
    if event.Query? then MeantBoundary(event.query) else NoBoundary
  }

  function Normalized(query: string): string { Text.Trim(TrimSemicolons(Text.Trim(query))) }

  /** Capital letters, perhaps with spaces in between. */
  predicate IsKeyword(keyword: string)
  {
    && keyword != [] && 'A' <= keyword[0] <= 'Z' && 'A' <= keyword[|keyword| - 1] <= 'Z'
    && forall i :: 0 <= i < |keyword| ==> keyword[i] == ' ' || 'A' <= keyword[i] <= 'Z'
  }

  lemma CaseVariantExactly(text: string, keyword: string)
    requires IsKeyword(keyword)
    ensures SameIgnoringCase(text, keyword) <==> IsCaseVariant(text, keyword)
  {
  }

  lemma VariantIsTight(word: string, keyword: string)
    requires IsKeyword(keyword) && IsCaseVariant(word, keyword)
    ensures word != [] && Text.IsTight(word) && word[|word| - 1] != ';'
  {
  }

  lemma {:induction false} SemicolonsAreTrimmed(text: string, semicolons: string)
    requires AreSemicolons(semicolons) && (text != [] ==> text[|text| - 1] != ';')
    ensures TrimSemicolons(text + semicolons) == text
  {
    if semicolons == [] {
      assert text + semicolons == text;
    } else {
      var n := |semicolons| - 1;
      assert (text + semicolons)[..|text + semicolons| - 1] == text + semicolons[..n];
      SemicolonsAreTrimmed(text, semicolons[..n]);
    }
  }

  lemma {:induction false} SemicolonsSplit(text: string) returns (semicolons: string)
    ensures AreSemicolons(semicolons) && text == TrimSemicolons(text) + semicolons
  {
    semicolons := [];
    if text != [] && text[|text| - 1] == ';' {
      var n := |text| - 1;
      var rest := SemicolonsSplit(text[..n]);
      semicolons := rest + [text[n]];
      assert text == text[..n] + [text[n]];
    }
  }

  /** A written keyword is what normalizing leaves. */
  lemma WritingIsNormalized(
    query: string, keyword: string, before: string, word: string, middle: string, semicolons: string, behind: string)
    requires IsKeyword(keyword) && IsWriting(query, keyword, before, word, middle, semicolons, behind)
    ensures Normalized(query) == word
  {
    hide Text.Trim, Text.IsWhitespace, IsCaseVariant, IsKeyword;
    VariantIsTight(word, keyword);
    if semicolons == [] {
      assert query == before + word + (middle + behind);
      Text.TrimIs(before, word, middle + behind);
      SemicolonsAreTrimmed(word, []);
      assert word + [] == word && [] + word + [] == word;
      Text.TrimIs([], word, []);
    } else {
      var inner := word + middle + semicolons;
      assert query == before + inner + behind;
      assert inner[0] == word[0] && inner[|inner| - 1] == ';' && !Text.IsWhitespace(';') by {
        SemicolonIsNoBlank();
      }
      Text.TrimIs(before, inner, behind);
      NoSemicolonBehind(word, middle);
      SemicolonsAreTrimmed(word + middle, semicolons);
      assert [] + word + middle == word + middle;
      Text.TrimIs([], word, middle);
    }
  }

  lemma SemicolonIsNoBlank()
    ensures !Text.IsWhitespace(';')
  {
  }

  lemma NoSemicolonBehind(word: string, middle: string)
    requires word != [] && word[|word| - 1] != ';' && Text.IsBlank(middle)
    ensures (word + middle)[|word + middle| - 1] != ';'
  {
    if middle != [] {
      assert (word + middle)[|word + middle| - 1] == middle[|middle| - 1];
    }
  }

  lemma WritesExactly(query: string, keyword: string)
    requires IsKeyword(keyword)
    ensures Writes(query, keyword) <==> IsCaseVariant(Normalized(query), keyword)
  {
    hide Text.Trim, Text.IsWhitespace, IsCaseVariant, IsKeyword, TrimSemicolons;
    if before, word, middle, semicolons, behind :| IsWriting(query, keyword, before, word, middle, semicolons, behind) {
      WritingIsNormalized(query, keyword, before, word, middle, semicolons, behind);
    }
    if IsCaseVariant(Normalized(query), keyword) {
      var before, behind := Text.TrimSplits(query);
      var semicolons := SemicolonsSplit(Text.Trim(query));
      var inner, middle := Text.TrimSplits(TrimSemicolons(Text.Trim(query)));
      var word := Normalized(query);
      assert query == (before + inner) + word + middle + semicolons + behind;
      assert IsWriting(query, keyword, before + inner, word, middle, semicolons, behind);
    }
  }

  /** What the statement's text is compared with decides the boundary, and nothing else. */
  lemma BoundaryByText(query: string)
    ensures BoundaryOf(query) == MeantBoundary(query)
  {
    assert IsKeyword("BEGIN") && IsKeyword("START TRANSACTION") && IsKeyword("COMMIT") && IsKeyword("ROLLBACK");
    hide IsKeyword, SameIgnoringCase, IsCaseVariant, Writes, TrimSemicolons;
    var text := Normalized(query);
    WritesExactly(query, "BEGIN");
    WritesExactly(query, "START TRANSACTION");
    WritesExactly(query, "COMMIT");
    WritesExactly(query, "ROLLBACK");
    CaseVariantExactly(text, "BEGIN");
    CaseVariantExactly(text, "START TRANSACTION");
    CaseVariantExactly(text, "COMMIT");
    CaseVariantExactly(text, "ROLLBACK");
  }

  lemma OnByText(s: State, event: Event)
    ensures On(s, event) == Act(s, event, BoundaryFor(event))
  {
    hide BoundaryOf, MeantBoundary, Act;
    if event.Query? {
      BoundaryByText(event.query);
    }
  }

  /** One more event, its boundary read off its text. */
  lemma RunStep(events: seq<Event>)
    requires events != []
    ensures var n := |events| - 1;
            Run(events) == Act(Run(events[..n]), events[n], BoundaryFor(events[n]))
  {
    hide On, Act, BoundaryFor;
    OnByText(Run(events[..|events| - 1]), events[|events| - 1]);
  }

  // ----- sequences

  predicate Numbered(s: State)
  {
    s.nextSequence == |s.transactions| + 1 &&
    forall i :: 0 <= i < |s.transactions| ==> s.transactions[i].sequence == i + 1
  }

  lemma NumberedStep(s: State, event: Event, boundary: Boundary)
    requires Numbered(s)
    ensures Numbered(Act(s, event, boundary))
  {
    hide Finish;
    match event {
      case Gtid(_, _) => NumberedFinish(s, Incomplete);
      case RowsQuery(_) =>
      case Rows(_, _) =>
      case Query(_, classified, location) =>
        NumberedFinish(UpdateEnd(s, location), Committed);
        NumberedFinish(UpdateEnd(s, location), RolledBack);
        if classified.Some? {
          NumberedFinish(AddChange(s, classified.value, location), Committed);
        }
      case Xid(xid, location) =>
        var open := UpdateEnd(EnsurePending(s, location), location);
        NumberedFinish(open.(pending := Some(open.pending.value.(xid := Some(xid)))), Committed);
      case Other(_) =>
    }
  }

  lemma NumberedFinish(s: State, status: Status)
    requires Numbered(s)
    ensures Numbered(Finish(s, status))
  {
    hide Totals, SumRows;
  }

  lemma {:induction false} NumberedRun(events: seq<Event>)
    ensures Numbered(Run(events))
  {
    if events != [] {
      RunStep(events);
      NumberedRun(events[..|events| - 1]);
      NumberedStep(Run(events[..|events| - 1]), events[|events| - 1], BoundaryFor(events[|events| - 1]));
    }
  }

  /** Sequences are 1..n, which is the order cursor paging rests on. */
  lemma SequencesAreConsecutive(events: seq<Event>)
    ensures forall i :: 0 <= i < |Assembled(events)| ==> Assembled(events)[i].sequence == i + 1
    ensures |Assembled(events)| < Repository.U64_LIMIT ==> Repository.Ordered(Assembled(events))
  {
    NumberedRun(events);
  }

  // ----- boundaries

  function GtidsOf(transactions: seq<Transaction>): seq<string>
  {
    if transactions == [] then []
    else
      var last := transactions[|transactions| - 1];
      GtidsOf(transactions[..|transactions| - 1]) + (if last.gtid.Some? then [last.gtid.value] else [])
  }

  function XidsOf(transactions: seq<Transaction>): seq<nat>
  {
    if transactions == [] then []
    else
      var last := transactions[|transactions| - 1];
      XidsOf(transactions[..|transactions| - 1]) + (if last.xid.Some? then [last.xid.value] else [])
  }

  function StatusesOf(transactions: seq<Transaction>): seq<Status>
  {
    seq(|transactions|, i requires 0 <= i < |transactions| => transactions[i].status)
  }

  /** What is known about an open transaction without its content. */
  datatype Outline = Closed | Open(hasGtid: bool, explicit: bool)

  /** The statuses an event closes transactions with, and the outline behind it. */
  function Closing(outline: Outline, event: Event, boundary: Boundary): (seq<Status>, Outline)
  {
    match event
    case Gtid(_, _) => (if outline.Open? then [Incomplete] else [], Open(true, false))
    case RowsQuery(_) => ([], outline)
    case Other(_) => ([], outline)
    case Rows(_, _) => ([], if outline.Open? then outline else Open(false, false))
    case Xid(_, _) => ([Committed], Closed)
    case Query(_, classified, _) => ClosingStatement(outline, boundary, classified)
  }

  function ClosingStatement(outline: Outline, boundary: Boundary, classified: Option<Change>): (seq<Status>, Outline)
  {
    match boundary
    case Begin => ([], Open(outline.Open? && outline.hasGtid, true))
    case Commit => (if outline.Open? then [Committed] else [], Closed)
    case Rollback => (if outline.Open? then [RolledBack] else [], Closed)
    case NoBoundary =>
      if classified.None? then ([], outline)
      else if classified.value.operation.Ddl? || outline.Closed? || (!outline.hasGtid && !outline.explicit)
      then ([Committed], Closed)
      else ([], outline)
  }

  ghost function Closings(events: seq<Event>): (seq<Status>, Outline)
  {
    if events == [] then ([], Closed)
    else
      var before := Closings(events[..|events| - 1]);
      var last := Closing(before.1, events[|events| - 1], BoundaryFor(events[|events| - 1]));
      (before.0 + last.0, last.1)
  }

  function GtidEvents(events: seq<Event>): seq<string>
  {
    if events == [] then []
    else
      var last := events[|events| - 1];
      GtidEvents(events[..|events| - 1]) + (if last.Gtid? then [last.gtid] else [])
  }

  function XidEvents(events: seq<Event>): seq<nat>
  {
    if events == [] then []
    else
      var last := events[|events| - 1];
      XidEvents(events[..|events| - 1]) + (if last.Xid? then [last.xid] else [])
  }

  function OutlineOf(s: State): Outline
  {
    match s.pending
    case None => Closed
    case Some(p) => Open(p.gtid.Some?, p.explicit)
  }

  function GtidsHeld(s: State): seq<string>
  {
    GtidsOf(s.transactions) +
    (if s.pending.Some? && s.pending.value.gtid.Some? then [s.pending.value.gtid.value] else [])
  }

  /** Facts about boundaries that every event keeps. */
  ghost predicate Faithful(s: State, events: seq<Event>)
  {
    && (s.pending.Some? ==> s.pending.value.xid.None?)
    && GtidsHeld(s) == GtidEvents(events)
    && XidsOf(s.transactions) == XidEvents(events)
    && StatusesOf(s.transactions) == Closings(events).0
    && OutlineOf(s) == Closings(events).1
  }

  lemma FinishEffect(s: State, status: Status)
    ensures var t := Finish(s, status);
            && t.pending.None?
            && GtidsOf(t.transactions) == GtidsHeld(s)
            && StatusesOf(t.transactions) == StatusesOf(s.transactions) + (if s.pending.Some? then [status] else [])
            && XidsOf(t.transactions) ==
               XidsOf(s.transactions) + (if s.pending.Some? && s.pending.value.xid.Some? then [s.pending.value.xid.value] else [])
  {
    if s.pending.Some? {
      var all := Finish(s, status).transactions;
      assert all[..|all| - 1] == s.transactions;
    }
  }

  /** How a statement event moves the boundary facts. */
  lemma BoundaryStatement(s: State, boundary: Boundary, classified: Option<Change>, location: Location)
    requires s.pending.Some? ==> s.pending.value.xid.None?
    ensures var t, closing := OnStatement(s, boundary, classified, location), ClosingStatement(OutlineOf(s), boundary, classified);
            && (t.pending.Some? ==> t.pending.value.xid.None?)
            && GtidsHeld(t) == GtidsHeld(s)
            && XidsOf(t.transactions) == XidsOf(s.transactions)
            && StatusesOf(t.transactions) == StatusesOf(s.transactions) + closing.0
            && OutlineOf(t) == closing.1
  {
    hide GtidsOf, XidsOf, StatusesOf, Finish;
    match boundary {
      case Begin =>
      case Commit => FinishEffect(UpdateEnd(s, location), Committed);
      case Rollback => FinishEffect(UpdateEnd(s, location), RolledBack);
      case NoBoundary =>
        if classified.Some? {
          FinishEffect(AddChange(s, classified.value, location), Committed);
        }
    }
  }

  /** One event's effect on the boundary facts. */
  ghost predicate MovesBoundaries(s: State, event: Event, closing: (seq<Status>, Outline), t: State)
  {
    && (t.pending.Some? ==> t.pending.value.xid.None?)
    && GtidsHeld(t) == GtidsHeld(s) + (if event.Gtid? then [event.gtid] else [])
    && XidsOf(t.transactions) == XidsOf(s.transactions) + (if event.Xid? then [event.xid] else [])
    && StatusesOf(t.transactions) == StatusesOf(s.transactions) + closing.0
    && OutlineOf(t) == closing.1
  }

  lemma BoundaryXid(s: State, event: Event, boundary: Boundary)
    requires event.Xid? && (s.pending.Some? ==> s.pending.value.xid.None?)
    ensures MovesBoundaries(s, event, Closing(OutlineOf(s), event, boundary), Act(s, event, boundary))
  {
    hide GtidsOf, XidsOf, StatusesOf, Finish;
    var open := UpdateEnd(EnsurePending(s, event.location), event.location);
    FinishEffect(open.(pending := Some(open.pending.value.(xid := Some(event.xid)))), Committed);
  }

  lemma BoundaryGtid(s: State, event: Event, boundary: Boundary)
    requires event.Gtid? && (s.pending.Some? ==> s.pending.value.xid.None?)
    ensures MovesBoundaries(s, event, Closing(OutlineOf(s), event, boundary), Act(s, event, boundary))
  {
    hide GtidsOf, XidsOf, StatusesOf, Finish;
    FinishEffect(s, Incomplete);
  }

  lemma BoundaryStep(s: State, event: Event, boundary: Boundary)
    requires s.pending.Some? ==> s.pending.value.xid.None?
    ensures MovesBoundaries(s, event, Closing(OutlineOf(s), event, boundary), Act(s, event, boundary))
  {
    hide OnStatement, ClosingStatement, GtidsOf, XidsOf, StatusesOf, OnXid, OnGtid;
    match event {
      case Gtid(_, _) => BoundaryGtid(s, event, boundary);
      case RowsQuery(_) =>
      case Rows(_, _) =>
      case Query(query, classified, location) => BoundaryStatement(s, boundary, classified, location);
      case Xid(_, _) => BoundaryXid(s, event, boundary);
      case Other(_) =>
    }
  }

  lemma {:induction false} FaithfulRun(events: seq<Event>)
    ensures Faithful(Run(events), events)
  {
    if events != [] {
      RunStep(events);
      hide Act, Closing, GtidsHeld, XidsOf, StatusesOf, OutlineOf;
      FaithfulRun(events[..|events| - 1]);
      BoundaryStep(Run(events[..|events| - 1]), events[|events| - 1], BoundaryFor(events[|events| - 1]));
    }
  }

  /** Each GTID and each XID yields exactly one transaction, and every status matches its closing event. */
  lemma BoundariesAreFaithful(events: seq<Event>)
    ensures GtidsOf(Assembled(events)) == GtidEvents(events)
    ensures XidsOf(Assembled(events)) == XidEvents(events)
    ensures StatusesOf(Assembled(events)) ==
            Closings(events).0 + (if Closings(events).1.Open? then [Incomplete] else [])
  {
    FaithfulRun(events);
    FinishEffect(Run(events), Incomplete);
  }

  // ----- conservation

  /** A row change without a statement text of its own takes the announced one with it. */
  predicate TakesText(event: Event) { event.Rows? && event.change.sql.None? }

  ghost predicate Closes(earlier: seq<Event>, event: Event)
  {
    Closing(Closings(earlier).1, event, BoundaryFor(event)).0 != []
  }

  /** The announced text that a row change behind these events would find. */
  ghost function Announced(events: seq<Event>): Option<string>
  {
    if events == [] then None
    else
      var last, earlier := events[|events| - 1], events[..|events| - 1];
      if last.RowsQuery? then Some(last.text)
      else if TakesText(last) || Closes(earlier, last) then None
      else Announced(earlier)
  }

  /** The change an event carries: a row mutation with its statement text, or a classified statement. */
  function Carried(event: Event, boundary: Boundary, announced: Option<string>): seq<Change>
  {
    match event
    case Rows(change, _) => [if change.sql.None? then change.(sql := announced) else change]
    case Query(_, Some(change), _) => if boundary.NoBoundary? then [change] else []
    case _ => []
  }

  ghost function CarriedBy(events: seq<Event>): seq<Change>
  {
    if events == [] then []
    else
      var last, earlier := events[|events| - 1], events[..|events| - 1];
      CarriedBy(earlier) + Carried(last, BoundaryFor(last), Announced(earlier))
  }

  function AllChanges(transactions: seq<Transaction>): seq<Change>
  {
    if transactions == [] then []
    else AllChanges(transactions[..|transactions| - 1]) + transactions[|transactions| - 1].changes
  }

  /** Changes held by the state: those of closed transactions, then the pending ones. */
  function Held(s: State): seq<Change>
  {
    AllChanges(s.transactions) + (if s.pending.Some? then s.pending.value.changes else [])
  }

  lemma HeldAfterFinish(s: State, status: Status)
    ensures Held(Finish(s, status)) == Held(s) && Finish(s, status).pending.None?
  {
    if s.pending.Some? {
      var all := Finish(s, status).transactions;
      assert all[..|all| - 1] == s.transactions;
    }
  }

  lemma HeldAfterStatement(s: State, boundary: Boundary, classified: Option<Change>, location: Location)
    ensures Held(OnStatement(s, boundary, classified, location)) ==
            Held(s) + (if boundary.NoBoundary? && classified.Some? then [classified.value] else [])
  {
    hide Totals, SumRows, Finish, AllChanges;
    assert Held(s) + [] == Held(s);
    match boundary {
      case Begin =>
      case Commit => HeldAfterFinish(UpdateEnd(s, location), Committed);
      case Rollback => HeldAfterFinish(UpdateEnd(s, location), RolledBack);
      case NoBoundary =>
        if classified.Some? {
          HeldAfterFinish(AddChange(s, classified.value, location), Committed);
        }
    }
  }

  lemma HeldStep(s: State, event: Event, boundary: Boundary)
    ensures Held(Act(s, event, boundary)) == Held(s) + Carried(event, boundary, s.rowsQuery)
  {
    hide OnStatement, Totals, SumRows, Finish, AllChanges;
    match event {
      case Gtid(_, _) => HeldAfterFinish(s, Incomplete);
      case RowsQuery(_) =>
      case Rows(change, location) =>
      case Query(query, classified, location) => HeldAfterStatement(s, boundary, classified, location);
      case Xid(xid, location) =>
        var open := UpdateEnd(EnsurePending(s, location), location);
        HeldAfterFinish(open.(pending := Some(open.pending.value.(xid := Some(xid)))), Committed);
      case Other(_) =>
    }
  }

  lemma TextAfterStatement(s: State, boundary: Boundary, classified: Option<Change>, location: Location)
    ensures OnStatement(s, boundary, classified, location).rowsQuery ==
            if ClosingStatement(OutlineOf(s), boundary, classified).0 != [] then None else s.rowsQuery
  {
    hide Totals, SumRows;
  }

  lemma TextStep(s: State, event: Event, boundary: Boundary)
    ensures Act(s, event, boundary).rowsQuery ==
            if event.RowsQuery? then Some(event.text)
            else if TakesText(event) || Closing(OutlineOf(s), event, boundary).0 != [] then None
            else s.rowsQuery
  {
    hide OnStatement, ClosingStatement, Totals, SumRows;
    if event.Query? {
      TextAfterStatement(s, boundary, event.classified, event.location);
    }
  }

  lemma {:induction false} TextOfRun(events: seq<Event>)
    ensures Run(events).rowsQuery == Announced(events)
  {
    if events != [] {
      RunStep(events);
      hide Act, Closing, TakesText, Faithful;
      var last, earlier := events[|events| - 1], events[..|events| - 1];
      TextOfRun(earlier);
      OutlineOfRun(earlier);
      TextStep(Run(earlier), last, BoundaryFor(last));
    }
  }

  lemma OutlineOfRun(events: seq<Event>)
    ensures OutlineOf(Run(events)) == Closings(events).1
  {
    hide Run, Closings, OutlineOf, GtidsHeld, GtidEvents, XidsOf, XidEvents, StatusesOf;
    FaithfulRun(events);
  }

  lemma {:induction false} HeldByRun(events: seq<Event>)
    ensures Held(Run(events)) == CarriedBy(events)
  {
    if events != [] {
      RunStep(events);
      hide Act, Held, Carried, Announced;
      var last, earlier := events[|events| - 1], events[..|events| - 1];
      HeldByRun(earlier);
      TextOfRun(earlier);
      HeldStep(Run(earlier), last, BoundaryFor(last));
    } else {
      assert Held(INITIAL) == [];
    }
  }

  /** No change is lost, duplicated or reordered by assembly, and each has its statement text. */
  lemma ChangesAreConserved(events: seq<Event>)
    ensures AllChanges(Assembled(events)) == CarriedBy(events)
  {
    hide Run, Finish, CarriedBy;
    HeldByRun(events);
    HeldAfterFinish(Run(events), Incomplete);
    assert Held(Finish(Run(events), Incomplete)) == AllChanges(Assembled(events));
  }

  /** The announcement at `j` is still there behind all events. */
  ghost predicate StillAnnounced(events: seq<Event>, j: nat, text: string)
  {
    && j < |events| && events[j] == RowsQuery(text)
    && forall k :: j < k < |events| ==>
         !events[k].RowsQuery? && !TakesText(events[k]) && !Closes(events[..k], events[k])
  }

  lemma {:induction false} AnnouncedExactly(events: seq<Event>, text: string)
    ensures Announced(events) == Some(text) <==> exists j: nat :: StillAnnounced(events, j, text)
  {
    hide TakesText, Closes;
    if events == [] {
    } else {
      var n := |events| - 1;
      var last, earlier := events[n], events[..n];
      if last == RowsQuery(text) {
        assert StillAnnounced(events, n, text);
      } else if !last.RowsQuery? && !TakesText(last) && !Closes(earlier, last) {
        AnnouncedExactly(earlier, text);
        StillAnnouncedBehind(events, earlier, last, text);
      }
    }
  }

  /** One more event that leaves announcements alone. */
  lemma StillAnnouncedBehind(events: seq<Event>, earlier: seq<Event>, last: Event, text: string)
    requires events == earlier + [last]
    requires !last.RowsQuery? && !TakesText(last) && !Closes(earlier, last)
    ensures (exists j: nat :: StillAnnounced(events, j, text)) <==> exists j: nat :: StillAnnounced(earlier, j, text)
  {
    hide TakesText, Closes;
    assert forall k :: 0 <= k < |earlier| ==> earlier[k] == events[k];
    assert forall k :: 0 <= k < |events| ==> earlier[..k] == events[..k];
    forall j: nat | j < |earlier| ensures StillAnnounced(events, j, text) <==> StillAnnounced(earlier, j, text) {
    }
  }

  lemma {:induction false} CarriedPrefix(events: seq<Event>, i: nat)
    requires i <= |events|
    ensures CarriedBy(events[..i]) <= CarriedBy(events)
  {
    hide Carried, Announced;
    if i < |events| {
      CarriedPrefix(events[..|events| - 1], i);
      assert events[..|events| - 1][..i] == events[..i];
    } else {
      assert events[..i] == events;
    }
  }

  /**
   A row change without a text of its own comes out with the text announced last, unless another row change
   took it or a transaction was closed in between; and with none if there is no such announcement.
   */
  lemma RowsQueryIsAttached(events: seq<Event>, i: nat, text: string)
    requires i < |events| && TakesText(events[i])
    ensures var changes, n := AllChanges(Assembled(events)), |CarriedBy(events[..i])|;
            && n < |changes| && changes[n] == events[i].change.(sql := changes[n].sql)
            && (changes[n].sql == Some(text) <==> exists j: nat :: StillAnnounced(events[..i], j, text))
  {
    hide Assembled, AllChanges, Announced, StillAnnounced;
    ChangesAreConserved(events);
    CarriedPrefix(events, i + 1);
    assert events[..i + 1][..i] == events[..i];
    AnnouncedExactly(events[..i], text);
  }

  // ----- segments

  /** The events cut behind every closing event, a GTID opening its own segment, and the events since the last cut. */
  ghost function Cut(events: seq<Event>): (seq<seq<Event>>, seq<Event>)
  {
    if events == [] then ([], [])
    else
      var last, earlier := events[|events| - 1], events[..|events| - 1];
      var (segments, current) := Cut(earlier);
      if !Closes(earlier, last) then (segments, current + [last])
      else if last.Gtid? then (segments + [current], [last])
      else (segments + [current + [last]], [])
  }

  /** One segment for each transaction, the last of which the end of the input may close. */
  ghost function Segments(events: seq<Event>): seq<seq<Event>>
  {
    if Closings(events).1.Open? then Cut(events).0 + [Cut(events).1] else Cut(events).0
  }

  function Joined(segments: seq<seq<Event>>): seq<Event>
  {
    if segments == [] then [] else Joined(segments[..|segments| - 1]) + segments[|segments| - 1]
  }

  lemma JoinedOneMore(segments: seq<seq<Event>>, segment: seq<Event>)
    ensures Joined(segments + [segment]) == Joined(segments) + segment
  {
    assert (segments + [segment])[..|segments|] == segments;
  }

  lemma {:induction false} CutKeepsEvents(events: seq<Event>)
    ensures Joined(Cut(events).0) + Cut(events).1 == events
  {
    if events != [] {
      hide Joined, Closes;
      var last, earlier := events[|events| - 1], events[..|events| - 1];
      CutKeepsEvents(earlier);
      OneMoreIsKept(Cut(earlier).0, Cut(earlier).1, earlier, last);
      assert events == earlier + [last];
    }
  }

  lemma OneMoreIsKept(segments: seq<seq<Event>>, current: seq<Event>, earlier: seq<Event>, last: Event)
    requires Joined(segments) + current == earlier
    ensures Joined(segments) + (current + [last]) == earlier + [last]
    ensures Joined(segments + [current]) + [last] == earlier + [last]
    ensures Joined(segments + [current + [last]]) + [] == earlier + [last]
  {
    hide Joined;
    JoinedOneMore(segments, current);
    JoinedOneMore(segments, current + [last]);
  }

  /** The transaction on its own: with the first number. */
  function Alone(t: Transaction): Transaction { t.(sequence := 1) }

  /** Nothing of earlier transactions is left in the state but their number. */
  predicate Parallel(s: State, alone: State)
  {
    alone.transactions == [] && alone.nextSequence == 1 && alone.pending == s.pending && alone.rowsQuery == s.rowsQuery
  }

  lemma FinishInParallel(s: State, alone: State, status: Status)
    requires Parallel(s, alone) && s.pending.Some?
    ensures var after := Finish(s, status).transactions;
            |after| == |s.transactions| + 1 && after[..|s.transactions|] == s.transactions &&
            Finish(alone, status).transactions == [Alone(after[|s.transactions|])]
    ensures Finish(s, status).pending.None? && Finish(s, status).rowsQuery.None? && Finish(alone, status).pending.None?
  {
    hide Totals, SumRows;
  }

  /** What one event does to a state and to the same state without the closed transactions. */
  ghost predicate StaysParallel(s: State, alone: State, after: State, aloneAfter: State, closes: bool)
  {
    if closes then
      && |after.transactions| == |s.transactions| + 1 && after.transactions[..|s.transactions|] == s.transactions
      && aloneAfter.transactions == [Alone(after.transactions[|s.transactions|])]
      && after.pending.None? && after.rowsQuery.None? && aloneAfter.pending.None?
    else Parallel(after, aloneAfter) && after.transactions == s.transactions
  }

  lemma StatementInParallel(s: State, alone: State, boundary: Boundary, classified: Option<Change>, location: Location)
    requires Parallel(s, alone)
    ensures StaysParallel(s, alone, OnStatement(s, boundary, classified, location),
                          OnStatement(alone, boundary, classified, location),
                          ClosingStatement(OutlineOf(s), boundary, classified).0 != [])
  {
    hide Totals, SumRows;
  }

  lemma EventInParallel(s: State, alone: State, event: Event, boundary: Boundary)
    requires Parallel(s, alone)
    requires !event.Gtid? || s.pending.None?
    ensures StaysParallel(s, alone, Act(s, event, boundary), Act(alone, event, boundary),
                          Closing(OutlineOf(s), event, boundary).0 != [])
  {
    hide Totals, SumRows, OnStatement, ClosingStatement;
    if event.Query? {
      StatementInParallel(s, alone, boundary, event.classified, event.location);
    }
  }

  lemma RunOfOneMore(events: seq<Event>, event: Event)
    ensures Run(events + [event]) == Act(Run(events), event, BoundaryFor(event))
  {
    RunStep(events + [event]);
    assert (events + [event])[..|events|] == events;
  }

  /** Each segment alone assembles to its transaction. */
  ghost predicate SegmentsMatch(segments: seq<seq<Event>>, transactions: seq<Transaction>)
  {
    |segments| == |transactions| &&
    forall k :: 0 <= k < |segments| ==> Assembled(segments[k]) == [Alone(transactions[k])]
  }

  lemma MatchOneMore(segments: seq<seq<Event>>, segment: seq<Event>, earlier: seq<Transaction>, all: seq<Transaction>)
    requires SegmentsMatch(segments, earlier)
    requires |all| == |earlier| + 1 && all[..|earlier|] == earlier && Assembled(segment) == [Alone(all[|earlier|])]
    ensures SegmentsMatch(segments + [segment], all)
  {
    hide Assembled;
    forall k | 0 <= k < |all| ensures Assembled((segments + [segment])[k]) == [Alone(all[k])] {
      if k < |earlier| {
        assert all[k] == earlier[k];
      }
    }
  }

  ghost predicate CutMatches(events: seq<Event>)
  {
    SegmentsMatch(Cut(events).0, Run(events).transactions) && Parallel(Run(events), Run(Cut(events).1))
  }

  lemma CutStepOpen(earlier: seq<Event>, last: Event)
    requires CutMatches(earlier) && !Closes(earlier, last)
    ensures CutMatches(earlier + [last])
  {
    hide SegmentsMatch, Parallel, Act, Closing, Closings, Run, OutlineOf;
    var current, boundary := Cut(earlier).1, BoundaryFor(last);
    assert (earlier + [last])[..|earlier|] == earlier;
    OutlineOfRun(earlier);
    GtidClosesOpen(Run(earlier), last, boundary);
    EventInParallel(Run(earlier), Run(current), last, boundary);
    RunOfOneMore(earlier, last);
    RunOfOneMore(current, last);
  }

  lemma GtidClosesOpen(s: State, event: Event, boundary: Boundary)
    ensures event.Gtid? ==> (Closing(OutlineOf(s), event, boundary).0 != [] <==> s.pending.Some?)
  {
  }

  lemma GtidInParallel(s: State, alone: State, event: Event, boundary: Boundary)
    requires Parallel(s, alone) && event.Gtid? && s.pending.Some?
    ensures Parallel(Act(s, event, boundary), Act(INITIAL, event, boundary))
    ensures var after := Act(s, event, boundary).transactions;
            |after| == |s.transactions| + 1 && after[..|s.transactions|] == s.transactions &&
            Finish(alone, Incomplete).transactions == [Alone(after[|s.transactions|])]
  {
    hide Totals, SumRows;
  }

  lemma FinishOfClosed(s: State, status: Status)
    requires s.pending.None?
    ensures Finish(s, status) == s
  {
  }

  lemma CutStepClosed(earlier: seq<Event>, last: Event)
    requires CutMatches(earlier) && Closes(earlier, last)
    ensures CutMatches(earlier + [last])
  {
    hide SegmentsMatch, Act, Closing, Closings, Run, OutlineOf, Finish;
    var segments, current, boundary := Cut(earlier).0, Cut(earlier).1, BoundaryFor(last);
    var s, alone := Run(earlier), Run(current);
    assert (earlier + [last])[..|earlier|] == earlier;
    OutlineOfRun(earlier);
    GtidClosesOpen(s, last, boundary);
    RunOfOneMore(earlier, last);
    RunOfNothing();
    if last.Gtid? {
      GtidInParallel(s, alone, last, boundary);
      RunOfOneMore([], last);
      assert [] + [last] == [last];
      MatchOneMore(segments, current, s.transactions, Run(earlier + [last]).transactions);
    } else {
      EventInParallel(s, alone, last, boundary);
      RunOfOneMore(current, last);
      FinishOfClosed(Run(current + [last]), Incomplete);
      MatchOneMore(segments, current + [last], s.transactions, Run(earlier + [last]).transactions);
    }
  }

  lemma RunOfNothing()
    ensures Run([]) == INITIAL
  {
  }

  lemma {:induction false} CutOfRun(events: seq<Event>)
    ensures CutMatches(events)
  {
    hide SegmentsMatch, Closes, CutMatches;
    if events == [] {
      CutOfNothing();
    } else {
      var last, earlier := events[|events| - 1], events[..|events| - 1];
      CutOfRun(earlier);
      assert events == earlier + [last];
      if Closes(earlier, last) {
        CutStepClosed(earlier, last);
      } else {
        CutStepOpen(earlier, last);
      }
    }
  }

  lemma CutOfNothing()
    ensures CutMatches([])
  {
  }

  // ----- the range of a transaction

  /** The event begins a transaction when none is open. */
  predicate Opens(event: Event, boundary: Boundary)
  {
    event.Gtid? || event.Rows? || event.Xid? ||
    (event.Query? && (boundary.Begin? || (boundary.NoBoundary? && event.classified.Some?)))
  }

  /**
   The range starts with the first event that opens a transaction, has that one's header, and ends with the
   last event that has a position.
   */
  ghost predicate IsSpan(segment: seq<Event>, location: Location)
  {
    exists i: nat, j: nat :: IsSpanOf(segment, location, i, j)
  }

  ghost predicate IsSpanOf(segment: seq<Event>, location: Location, i: nat, j: nat)
  {
    && i <= j < |segment| && Opens(segment[i], BoundaryFor(segment[i]))
    && (forall k :: 0 <= k < i ==> !Opens(segment[k], BoundaryFor(segment[k])))
    && !segment[j].RowsQuery? && (forall k :: j < k < |segment| ==> segment[k].RowsQuery?)
    && location == segment[i].location.(end := segment[j].location.end)
  }

  ghost predicate NothingOpens(segment: seq<Event>)
  {
    forall k :: 0 <= k < |segment| ==> !Opens(segment[k], BoundaryFor(segment[k]))
  }

  ghost predicate HasSpan(segment: seq<Event>, place: Option<Location>)
  {
    match place
    case None => NothingOpens(segment)
    case Some(location) => IsSpan(segment, location)
  }

  /** The range with one more event. */
  function Touched(place: Option<Location>, event: Event, boundary: Boundary): Option<Location>
  {
    if event.Gtid? then Some(event.location)
    else if event.RowsQuery? then place
    else if place.Some? then Some(place.value.(end := event.location.end))
    else if Opens(event, boundary) then Some(event.location)
    else None
  }

  lemma SpanGrows(segment: seq<Event>, place: Option<Location>, event: Event)
    requires HasSpan(segment, place) && (event.Gtid? ==> place.None?)
    ensures HasSpan(segment + [event], Touched(place, event, BoundaryFor(event)))
  {
    hide Opens, BoundaryFor;
    var all, n := segment + [event], |segment|;
    assert forall k :: 0 <= k < n ==> all[k] == segment[k];
    assert event.Gtid? ==> Opens(event, BoundaryFor(event)) by {
      GtidOpens(event, BoundaryFor(event));
    }
    if place.Some? {
      var i: nat, j: nat :| IsSpanOf(segment, place.value, i, j);
      if event.RowsQuery? {
        assert IsSpanOf(all, place.value, i, j);
      } else {
        assert IsSpanOf(all, place.value.(end := event.location.end), i, n);
      }
    } else if event.RowsQuery? {
      NoQueryOpens(event, BoundaryFor(event));
    } else if Opens(event, BoundaryFor(event)) {
      assert IsSpanOf(all, event.location, n, n);
    }
  }

  lemma GtidOpens(event: Event, boundary: Boundary)
    ensures event.Gtid? ==> Opens(event, boundary)
  {
  }

  lemma NoQueryOpens(event: Event, boundary: Boundary)
    ensures event.RowsQuery? ==> !Opens(event, boundary)
  {
  }

  function PlaceOf(s: State): Option<Location> { if s.pending.Some? then Some(s.pending.value.location) else None }

  ghost predicate IsPlaced(s: State, event: Event, boundary: Boundary, t: State, closes: bool)
  {
    var touched := Touched(PlaceOf(s), event, boundary);
    if !closes then t.transactions == s.transactions && PlaceOf(t) == touched
    else
      && |t.transactions| == |s.transactions| + 1 && t.transactions[..|s.transactions|] == s.transactions
      && var closed := t.transactions[|s.transactions|].location;
         if event.Gtid? then PlaceOf(s) == Some(closed) && PlaceOf(t) == Some(event.location)
         else touched == Some(closed) && PlaceOf(t) == None
  }

  lemma StatementIsPlaced(s: State, event: Event, boundary: Boundary)
    requires event.Query?
    ensures IsPlaced(s, event, boundary, OnStatement(s, boundary, event.classified, event.location),
                     ClosingStatement(OutlineOf(s), boundary, event.classified).0 != [])
  {
    hide Totals, SumRows;
  }

  lemma EventIsPlaced(s: State, event: Event, boundary: Boundary)
    ensures IsPlaced(s, event, boundary, Act(s, event, boundary), Closing(OutlineOf(s), event, boundary).0 != [])
  {
    hide Totals, SumRows, OnStatement, ClosingStatement;
    if event.Query? {
      StatementIsPlaced(s, event, boundary);
    }
  }

  ghost predicate SpansMatch(segments: seq<seq<Event>>, transactions: seq<Transaction>)
  {
    |segments| == |transactions| && forall k :: 0 <= k < |segments| ==> IsSpan(segments[k], transactions[k].location)
  }

  lemma SpansOneMore(segments: seq<seq<Event>>, segment: seq<Event>, earlier: seq<Transaction>, all: seq<Transaction>)
    requires SpansMatch(segments, earlier)
    requires |all| == |earlier| + 1 && all[..|earlier|] == earlier && IsSpan(segment, all[|earlier|].location)
    ensures SpansMatch(segments + [segment], all)
  {
    hide IsSpan;
    forall k | 0 <= k < |all| ensures IsSpan((segments + [segment])[k], all[k].location) {
      if k < |earlier| {
        assert all[k] == earlier[k];
      }
    }
  }

  lemma NothingOpensInNothing()
    ensures HasSpan([], None)
  {
  }

  lemma {:induction false} CutSpans(events: seq<Event>)
    ensures SpansMatch(Cut(events).0, Run(events).transactions) && HasSpan(Cut(events).1, PlaceOf(Run(events)))
  {
    hide SpansMatch, HasSpan, Closing, Act, Touched, PlaceOf, IsSpan, BoundaryFor;
    if events == [] {
      CutOfNothingSpans();
    } else {
      var last, earlier := events[|events| - 1], events[..|events| - 1];
      CutSpans(earlier);
      RunStep(events);
      OutlineOfRun(earlier);
      EventIsPlaced(Run(earlier), last, BoundaryFor(last));
      FreshGtidFindsNone(Run(earlier), last, BoundaryFor(last));
      CutSpansStep(Cut(earlier).0, Cut(earlier).1, Run(earlier), last, Run(events), Closes(earlier, last));
    }
  }

  lemma FreshGtidFindsNone(s: State, event: Event, boundary: Boundary)
    ensures event.Gtid? && Closing(OutlineOf(s), event, boundary).0 == [] ==> PlaceOf(s).None?
  {
  }

  lemma CutOfNothingSpans()
    ensures SpansMatch(Cut([]).0, Run([]).transactions) && HasSpan(Cut([]).1, PlaceOf(Run([])))
  {
  }

  lemma CutSpansStep(segments: seq<seq<Event>>, current: seq<Event>, s: State, last: Event, t: State, closes: bool)
    requires SpansMatch(segments, s.transactions) && HasSpan(current, PlaceOf(s))
    requires IsPlaced(s, last, BoundaryFor(last), t, closes)
    requires last.Gtid? && !closes ==> PlaceOf(s).None?
    ensures !closes ==> SpansMatch(segments, t.transactions) && HasSpan(current + [last], PlaceOf(t))
    ensures closes && last.Gtid? ==> SpansMatch(segments + [current], t.transactions) && HasSpan([last], PlaceOf(t))
    ensures closes && !last.Gtid? ==> SpansMatch(segments + [current + [last]], t.transactions) && HasSpan([], PlaceOf(t))
  {
    hide SpansMatch, IsSpan, BoundaryFor, Opens;
    NothingOpensInNothing();
    if closes && last.Gtid? {
      SpansOneMore(segments, current, s.transactions, t.transactions);
      SpanGrows([], None, last);
      assert [] + [last] == [last];
    } else {
      SpanGrows(current, PlaceOf(s), last);
      if closes {
        SpansOneMore(segments, current + [last], s.transactions, t.transactions);
      }
    }
  }

  /** Each transaction has the header of the event that opened it and ends with its segment's last position. */
  lemma RangesAreSpans(events: seq<Event>)
    ensures SpansMatch(Segments(events), Assembled(events))
  {
    hide Closings, Run, Cut, SpansMatch, IsSpan, OutlineOf;
    var s := Run(events);
    CutSpans(events);
    OutlineOfRun(events);
    OutlineTells(s);
    if s.pending.Some? {
      FinishIsPlaced(s, Incomplete);
      SpansOneMore(Cut(events).0, Cut(events).1, s.transactions, Assembled(events));
    } else {
      FinishOfClosed(s, Incomplete);
    }
  }

  lemma FinishIsPlaced(s: State, status: Status)
    requires s.pending.Some?
    ensures var after := Finish(s, status).transactions;
            |after| == |s.transactions| + 1 && after[..|s.transactions|] == s.transactions &&
            after[|s.transactions|].location == s.pending.value.location
  {
    hide Totals, SumRows;
  }

  function Listed<T>(o: Option<T>): seq<T> { if o.Some? then [o.value] else [] }

  /** The transaction has the segment's one GTID, its one XID, its changes and its closing status. */
  ghost predicate Describes(segment: seq<Event>, t: Transaction)
  {
    && GtidEvents(segment) == Listed(t.gtid)
    && XidEvents(segment) == Listed(t.xid)
    && CarriedBy(segment) == t.changes
    && Closings(segment).0 + (if Closings(segment).1.Open? then [Incomplete] else []) == [t.status]
  }

  lemma SegmentDescribes(segment: seq<Event>, t: Transaction)
    requires Assembled(segment) == [Alone(t)]
    ensures Describes(segment, t)
  {
    hide Assembled, CarriedBy, Closings, GtidEvents, XidEvents;
    BoundariesAreFaithful(segment);
    ChangesAreConserved(segment);
    assert [Alone(t)][..0] == [];
    assert Closings(segment).0 + (if Closings(segment).1.Open? then [Incomplete] else []) == StatusesOf([Alone(t)]) == [t.status];
  }

  /**
   The events fall into consecutive segments, one for each transaction, and each transaction is what its own
   segment assembles to, with the segment's GTID, XID, changes and closing status; events behind the last
   segment belong to none.
   */
  lemma TransactionsArePartition(events: seq<Event>)
    ensures Joined(Segments(events)) <= events
    ensures Closings(events).1.Open? ==> Joined(Segments(events)) == events
    ensures SegmentsMatch(Segments(events), Assembled(events))
    ensures forall k :: 0 <= k < |Assembled(events)| ==> Describes(Segments(events)[k], Assembled(events)[k])
  {
    hide Assembled, Describes, Joined;
    SegmentsOfRun(events);
    forall k | 0 <= k < |Assembled(events)| ensures Describes(Segments(events)[k], Assembled(events)[k]) {
      SegmentDescribes(Segments(events)[k], Assembled(events)[k]);
    }
  }

  lemma SegmentsOfRun(events: seq<Event>)
    ensures Joined(Segments(events)) <= events
    ensures SegmentsMatch(Segments(events), Assembled(events))
    ensures Closings(events).1.Open? ==> Joined(Segments(events)) == events
  {
    hide Closings, Run, Joined, Cut, SegmentsMatch, OutlineOf;
    var segments, current, s := Cut(events).0, Cut(events).1, Run(events);
    CutKeepsEvents(events);
    CutOfRun(events);
    OutlineOfRun(events);
    OutlineTells(s);
    if s.pending.Some? {
      JoinedOneMore(segments, current);
      FinishInParallel(s, Run(current), Incomplete);
      MatchOneMore(segments, current, s.transactions, Assembled(events));
    } else {
      FinishOfClosed(s, Incomplete);
    }
  }

  lemma OutlineTells(s: State)
    ensures OutlineOf(s).Open? <==> s.pending.Some?
  {
  }

  // ----- totals

  function SumWhere(changes: seq<Change>, key: TableKey, operation: Operation): nat
  {
    if changes == [] then 0
    else
      var last := changes[|changes| - 1];
      SumWhere(changes[..|changes| - 1], key, operation) +
      (if Key(last) == key && last.operation == operation then last.rowCount else 0)
  }

  function CountDdl(changes: seq<Change>, key: TableKey): nat
  {
    if changes == [] then 0
    else
      var last := changes[|changes| - 1];
      CountDdl(changes[..|changes| - 1], key) + (if Key(last) == key && last.operation.Ddl? then 1 else 0)
  }

  /** What a table's entry should count: its own changes, by operation. */
  function CountsIn(changes: seq<Change>, key: TableKey): Counts
  {
    var inserts, updates, deletes := SumWhere(changes, key, Insert), SumWhere(changes, key, Update), SumWhere(changes, key, Delete);
    Counts(inserts, updates, deletes, CountDdl(changes, key), inserts + updates + deletes + SumWhere(changes, key, Ddl))
  }

  lemma {:induction false} TotalsCount(changes: seq<Change>, key: TableKey)
    requires key.1 != ""
    ensures At(Totals(changes), key) == CountsIn(changes, key)
  {
    if changes != [] {
      TotalsCount(changes[..|changes| - 1], key);
    }
  }

  lemma {:induction false} SumWhereConcat(left: seq<Change>, right: seq<Change>, key: TableKey, operation: Operation)
    ensures SumWhere(left + right, key, operation) == SumWhere(left, key, operation) + SumWhere(right, key, operation)
    ensures CountDdl(left + right, key) == CountDdl(left, key) + CountDdl(right, key)
  {
    if right == [] {
      assert left + right == left;
    } else {
      SumWhereConcat(left, right[..|right| - 1], key, operation);
      assert (left + right)[..|left + right| - 1] == left + right[..|right| - 1];
      assert (left + right)[|left + right| - 1] == right[|right| - 1];
    }
  }

  function Plus(a: Counts, b: Counts): Counts
  {
    Counts(a.inserts + b.inserts, a.updates + b.updates, a.deletes + b.deletes, a.ddl + b.ddl, a.rows + b.rows)
  }

  lemma CountsInConcat(left: seq<Change>, right: seq<Change>, key: TableKey)
    ensures CountsIn(left + right, key) == Plus(CountsIn(left, key), CountsIn(right, key))
  {
    hide SumWhere, CountDdl;
    SumWhereConcat(left, right, key, Insert);
    SumWhereConcat(left, right, key, Update);
    SumWhereConcat(left, right, key, Delete);
    SumWhereConcat(left, right, key, Ddl);
  }

  datatype AnalysisTotals = AnalysisTotals(transactionCount: nat, rowChangeCount: nat, tables: map<TableKey, Counts>)

  function SumRowCounts(transactions: seq<Transaction>): nat
  {
    if transactions == [] then 0
    else SumRowCounts(transactions[..|transactions| - 1]) + transactions[|transactions| - 1].rowChangeCount
  }

  function SumTables(transactions: seq<Transaction>, key: TableKey): Counts
  {
    if transactions == [] then ZERO
    else Plus(SumTables(transactions[..|transactions| - 1], key), At(transactions[|transactions| - 1].tables, key))
  }

  method TallyChanges(tables: map<TableKey, Counts>, changes: seq<Change>, ghost before: seq<Change>)
    returns (r: map<TableKey, Counts>)
    requires tables == Totals(before)
    ensures r == Totals(before + changes)
  {
    hide Counted;
    r := tables;
    assert before + changes[..0] == before;
    for j := 0 to |changes|
      invariant r == Totals(before + changes[..j])
    {
      TotalsPush(before, changes, j);
      if changes[j].table == "" {
        continue;
      }
      r := r[Key(changes[j]) := Counted(At(r, Key(changes[j])), changes[j])];
    }
    assert changes[..|changes|] == changes;
  }

  lemma TotalsPush(before: seq<Change>, changes: seq<Change>, j: nat)
    requires j < |changes|
    ensures Totals(before + changes[..j + 1]) == Tallied(Totals(before + changes[..j]), changes[j])
  {
    hide Tallied;
    var pushed := before + changes[..j + 1];
    assert pushed[..|pushed| - 1] == before + changes[..j] && pushed[|pushed| - 1] == changes[j];
  }

  /** The counters of the analysis summary, recomputed from the changes. */
  method BuildSummary(transactions: seq<Transaction>) returns (r: AnalysisTotals)
    ensures r == AnalysisTotals(|transactions|, SumRowCounts(transactions), Totals(AllChanges(transactions)))
  {
    hide Totals;
    var tables: map<TableKey, Counts> := NoTables();
    var rows := 0;
    for i := 0 to |transactions|
      invariant tables == Totals(AllChanges(transactions[..i]))
      invariant rows == SumRowCounts(transactions[..i])
    {
      assert transactions[..i + 1][..i] == transactions[..i];
      tables := TallyChanges(tables, transactions[i].changes, AllChanges(transactions[..i]));
      rows := rows + transactions[i].rowChangeCount;
    }
    assert transactions[..|transactions|] == transactions;
    r := AnalysisTotals(|transactions|, rows, tables);
  }

  function NoTables(): (tables: map<TableKey, Counts>)
    ensures tables == Totals([])
  {
    map[]
  }

  predicate Summarized(t: Transaction)
  {
    t.rowChangeCount == SumRows(t.changes) && t.tables == Totals(t.changes)
  }

  lemma SummarizedStep(s: State, event: Event, boundary: Boundary)
    requires forall t :: t in s.transactions ==> Summarized(t)
    ensures forall t :: t in Act(s, event, boundary).transactions ==> Summarized(t)
  {
    hide Totals, SumRows;
  }

  lemma {:induction false} SummarizedRun(events: seq<Event>)
    ensures forall t :: t in Run(events).transactions ==> Summarized(t)
  {
    if events != [] {
      RunStep(events);
      SummarizedRun(events[..|events| - 1]);
      SummarizedStep(Run(events[..|events| - 1]), events[|events| - 1], BoundaryFor(events[|events| - 1]));
    }
  }

  lemma {:induction false} TablesAddUp(transactions: seq<Transaction>, key: TableKey)
    requires key.1 != "" && forall t :: t in transactions ==> Summarized(t)
    ensures SumTables(transactions, key) == CountsIn(AllChanges(transactions), key)
  {
    if transactions == [] {
    } else {
      hide Totals, Plus, CountsIn, At;
      var last, earlier := transactions[|transactions| - 1], transactions[..|transactions| - 1];
      assert last in transactions && forall t :: t in earlier ==> t in transactions;
      TablesAddUp(earlier, key);
      CountsInConcat(AllChanges(earlier), last.changes, key);
      TotalsCount(last.changes, key);
    }
  }

  lemma {:induction false} RowsAddUp(transactions: seq<Transaction>)
    requires forall t :: t in transactions ==> Summarized(t)
    ensures SumRowCounts(transactions) == SumRows(AllChanges(transactions))
  {
    if transactions != [] {
      var last, earlier := transactions[|transactions| - 1], transactions[..|transactions| - 1];
      assert last in transactions && forall t :: t in earlier ==> t in transactions;
      RowsAddUp(earlier);
      SumRowsConcat(AllChanges(earlier), last.changes);
    }
  }

  lemma {:induction false} SumRowsConcat(left: seq<Change>, right: seq<Change>)
    ensures SumRows(left + right) == SumRows(left) + SumRows(right)
  {
    if right == [] {
      assert left + right == left;
    } else {
      SumRowsConcat(left, right[..|right| - 1]);
      assert (left + right)[..|left + right| - 1] == left + right[..|right| - 1];
      assert (left + right)[|left + right| - 1] == right[|right| - 1];
    }
  }

  lemma AssembledIsSummarized(events: seq<Event>)
    ensures forall t :: t in Assembled(events) ==> Summarized(t)
  {
    hide Totals, SumRows, Run;
    SummarizedRun(events);
  }

  /** The tables shown per transaction add up to the totals of the analysis summary. */
  lemma TotalsAddUp(events: seq<Event>, key: TableKey)
    requires key.1 != ""
    ensures SumTables(Assembled(events), key) == At(Totals(AllChanges(Assembled(events))), key)
    ensures SumRowCounts(Assembled(events)) == SumRows(AllChanges(Assembled(events)))
  {
    hide Assembled, AllChanges, Summarized, Totals, SumTables, SumRowCounts, SumRows, CountsIn, At;
    AssembledIsSummarized(events);
    TablesAddUp(Assembled(events), key);
    TotalsCount(AllChanges(Assembled(events)), key);
    RowsAddUp(Assembled(events));
  }
}
