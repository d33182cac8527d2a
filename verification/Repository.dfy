/** The in-memory analysis repository: exact filters, projection and cursor pages. */
module Repository {
  import opened Wrappers
  import opened Binlog
  import Text

  const DEFAULT_PAGE_SIZE: nat := 100
  const MAX_PAGE_SIZE: nat := 500
  const U64_LIMIT: nat := 0x1_0000_0000_0000_0000

  /** The part of a filter that decides which changes match. */
  datatype Criteria = Criteria(database: Option<string>, table: Option<string>, operation: Option<Operation>)

  datatype Filter = Filter(criteria: Criteria, cursor: Option<string>, limit: Option<nat>)

  datatype Summary = Summary(
    sequence: nat,
    gtid: Option<string>,
    xid: Option<nat>,
    location: Location,
    status: Status,
    rowChangeCount: nat,
    tables: map<TableKey, Counts>)

  datatype Page = Page(items: seq<Summary>, nextCursor: Option<string>)

  datatype RepositoryError = NotFound | AlreadyExists | InvalidCursor

  // ----- filters

  predicate Restricts(value: Option<string>) { value.Some? && value.value != [] }

  predicate OptionalExactMatch(expected: Option<string>, actual: string)
  {
    Restricts(expected) ==> expected.value == actual
  }

  predicate OptionalOperationMatch(expected: Option<Operation>, actual: Operation)
  {
    expected.Some? ==> expected.value == actual
  }

  predicate ChangeMatches(criteria: Criteria, change: Change)
  {
    && OptionalExactMatch(criteria.database, change.database)
    && OptionalExactMatch(criteria.table, change.table)
    && OptionalOperationMatch(criteria.operation, change.operation)
  }

  predicate Uncriteriaed(criteria: Criteria)
  {
    !Restricts(criteria.database) && !Restricts(criteria.table) && criteria.operation.None?
  }

  function MatchingChanges(changes: seq<Change>, criteria: Criteria): seq<Change>
  {
    if changes == [] then []
    else
      var last := changes[|changes| - 1];
      MatchingChanges(changes[..|changes| - 1], criteria) + (if ChangeMatches(criteria, last) then [last] else [])
  }

  function SummaryOf(t: Transaction, rowChangeCount: nat): Summary
  {
    Summary(t.sequence, t.gtid, t.xid, t.location, t.status, rowChangeCount, t.tables)
  }

  /** The summary's own pass over the changes: whether any of them matches, and the rows of those that do. */
  function MatchedRows(changes: seq<Change>, criteria: Criteria): (bool, nat)
  {
    if changes == [] then (false, 0)
    else
      var last, (matched, rows) := changes[|changes| - 1], MatchedRows(changes[..|changes| - 1], criteria);
      if ChangeMatches(criteria, last) then (true, rows + last.rowCount) else (matched, rows)
  }

  function SummarizeTransaction(t: Transaction, criteria: Criteria): (r: Option<Summary>)
    ensures r.Some? ==> r.value.sequence == t.sequence
  {
    if Uncriteriaed(criteria) then Some(SummaryOf(t, t.rowChangeCount))
    else
      var (matched, rows) := MatchedRows(t.changes, criteria);
      if matched then Some(SummaryOf(t, rows)) else None
  }

  function ProjectTransaction(t: Transaction, criteria: Criteria): Option<Transaction>
  {
    if Uncriteriaed(criteria) then Some(t)
    else
      var matched := MatchingChanges(t.changes, criteria);
      if matched == [] then None else Some(t.(rowChangeCount := SumRows(matched), changes := matched))
  }

  /** A transaction has a summary exactly when it can be projected, and both count the same rows. */
  lemma ProjectionAgreesWithSummary(t: Transaction, criteria: Criteria)
    ensures ProjectTransaction(t, criteria).Some? <==> SummarizeTransaction(t, criteria).Some?
    ensures ProjectTransaction(t, criteria).Some? ==>
              ProjectTransaction(t, criteria).value.rowChangeCount == SummarizeTransaction(t, criteria).value.rowChangeCount
  {
    hide MatchedRows, MatchingChanges, SumRows;
    MatchedRowsAgree(t.changes, criteria);
  }

  lemma {:induction false} MatchedRowsAgree(changes: seq<Change>, criteria: Criteria)
    ensures MatchedRows(changes, criteria).0 <==> MatchingChanges(changes, criteria) != []
    ensures MatchedRows(changes, criteria).1 == SumRows(MatchingChanges(changes, criteria))
  {
    if changes != [] {
      hide ChangeMatches;
      var last, before := changes[|changes| - 1], MatchingChanges(changes[..|changes| - 1], criteria);
      MatchedRowsAgree(changes[..|changes| - 1], criteria);
      assert (before + [last])[..|before + [last]| - 1] == before && before + [] == before;
    }
  }

  // ----- pages

  /** u64::from_str: an optional plus sign, at least one digit, and no overflow. */
  function ParseCursor(text: string): Option<nat>
  {
    var digits := if text != [] && text[0] == '+' then text[1..] else text;
    if digits != [] && Text.AllDigits(digits) && Text.Value(digits) < U64_LIMIT then Some(Text.Value(digits)) else None
  }

  function PageSize(limit: Option<nat>): nat
  {
    var requested := if limit.Some? then limit.value else DEFAULT_PAGE_SIZE;
    if requested < 1 then 1 else if requested > MAX_PAGE_SIZE then MAX_PAGE_SIZE else requested
  }

  function SummariesOf(t: Transaction, criteria: Criteria, after: nat): seq<Summary>
  {
    if t.sequence > after && SummarizeTransaction(t, criteria).Some?
    then [SummarizeTransaction(t, criteria).value] else []
  }

  /** Summaries of the matching transactions after a sequence number, in stored order. */
  function Matching(transactions: seq<Transaction>, criteria: Criteria, after: nat): seq<Summary>
  {
    if transactions == [] then []
    else SummariesOf(transactions[0], criteria, after) + Matching(transactions[1..], criteria, after)
  }

  function PaginateTransactions(transactions: seq<Transaction>, filter: Filter): Result<Page, RepositoryError>
  {
    var after := if filter.cursor.Some? then ParseCursor(filter.cursor.value) else Some(0);
    if after.None? then Failure(InvalidCursor)
    else
      var limit, found := PageSize(filter.limit), Matching(transactions, filter.criteria, after.value);
      if |found| > limit
      then Success(Page(found[..limit], Some(Text.Decimal(found[limit - 1].sequence))))
      else Success(Page(found, None))
  }

  function FindTransaction(transactions: seq<Transaction>, sequence: nat): Option<Transaction>
  {
    if transactions == [] then None
    else if transactions[0].sequence == sequence then Some(transactions[0])
    else FindTransaction(transactions[1..], sequence)
  }

  function GetTransaction(transactions: seq<Transaction>, sequence: nat, criteria: Criteria)
    : Result<Transaction, RepositoryError>
  {
    match FindTransaction(transactions, sequence)
    case None => Failure(NotFound)
    case Some(t) =>
      match ProjectTransaction(t, criteria)
      case None => Failure(NotFound)
      case Some(projected) => Success(projected)
  }

  // ----- the repository object

  datatype Session = Session(info: string, transactions: seq<Transaction>)

  /** Sessions by analysis identifier; `info` stands for the rest of the stored summary. */
  class InMemoryAnalysisRepository {
    var sessions: map<nat, Session>

    constructor ()
      ensures sessions == map[]
    {
      sessions := map[];
    }

    method Create(id: nat, info: string) returns (r: Result<(), RepositoryError>)
      modifies this
      ensures if id in old(sessions) then r == Failure(AlreadyExists) && sessions == old(sessions)
              else r == Success(()) && sessions == old(sessions)[id := Session(info, [])]
    {
      if id in sessions {
        return Failure(AlreadyExists);
      }
      sessions := sessions[id := Session(info, [])];
      r := Success(());
    }

    method Replace(id: nat, info: string, transactions: seq<Transaction>) returns (r: Result<(), RepositoryError>)
      modifies this
      ensures if id !in old(sessions) then r == Failure(NotFound) && sessions == old(sessions)
              else r == Success(()) && sessions == old(sessions)[id := Session(info, transactions)]
    {
      if id !in sessions {
        return Failure(NotFound);
      }
      sessions := sessions[id := Session(info, transactions)];
      r := Success(());
    }

    /** Over transactions as the assembler orders them, a page is the first part of what is behind its cursor. */
    method ListTransactions(id: nat, filter: Filter) returns (r: Result<Page, RepositoryError>)
      ensures r == if id in sessions then PaginateTransactions(sessions[id].transactions, filter) else Failure(NotFound)
      ensures r.Success? <==> id in sessions && ValidCursor(filter.cursor)
      ensures r.Success? && Ordered(sessions[id].transactions) ==> IsPage(sessions[id].transactions, filter, r.value)
    {
      if id !in sessions {
        return Failure(NotFound);
      }
      PageIsRight(sessions[id].transactions, filter);
      r := PaginateTransactions(sessions[id].transactions, filter);
    }

    method GetTransactionOf(id: nat, sequence: nat, criteria: Criteria) returns (r: Result<Transaction, RepositoryError>)
      ensures r == if id in sessions then GetTransaction(sessions[id].transactions, sequence, criteria) else Failure(NotFound)
    {
      if id !in sessions {
        return Failure(NotFound);
      }
      r := GetTransaction(sessions[id].transactions, sequence, criteria);
    }

    method Close(id: nat)
      modifies this
      ensures sessions == old(sessions) - {id}
    {
      sessions := sessions - {id};
    }
  }

  // ----- following the cursor

  /** The order the assembler guarantees: positive 64-bit sequences, strictly increasing. */
  predicate Ordered(transactions: seq<Transaction>)
  {
    && (forall i :: 0 <= i < |transactions| ==> 0 < transactions[i].sequence < U64_LIMIT)
    && (forall i, j :: 0 <= i < j < |transactions| ==> transactions[i].sequence < transactions[j].sequence)
  }

  lemma CursorRoundTrip(sequence: nat)
    requires sequence < U64_LIMIT
    ensures ParseCursor(Text.Decimal(sequence)) == Some(sequence)
  {
    Text.DecimalRoundTrip(sequence);
  }

  predicate Increasing(found: seq<Summary>)
  {
    forall i, j :: 0 <= i < j < |found| ==> found[i].sequence < found[j].sequence
  }

  lemma {:induction false} MatchingLater(transactions: seq<Transaction>, criteria: Criteria, after: nat, low: nat)
    requires forall i :: 0 <= i < |transactions| ==> transactions[i].sequence > low
    ensures forall s :: s in Matching(transactions, criteria, after) ==> s.sequence > low
  {
    if transactions != [] {
      MatchingLater(transactions[1..], criteria, after, low);
    }
  }

  lemma {:induction false} MatchingIncreases(transactions: seq<Transaction>, criteria: Criteria, after: nat)
    requires Ordered(transactions)
    ensures Increasing(Matching(transactions, criteria, after))
  {
    if transactions != [] {
      MatchingIncreases(transactions[1..], criteria, after);
      MatchingLater(transactions[1..], criteria, after, transactions[0].sequence);
      var mine, later := SummariesOf(transactions[0], criteria, after), Matching(transactions[1..], criteria, after);
      var found: seq<Summary> := mine + later;
      forall i, j | 0 <= i < j < |found| ensures found[i].sequence < found[j].sequence {
        assert found[j] in later;
      }
    }
  }

  /** The summaries are those of the matching transactions behind the cursor, in the order of their sequences. */
  lemma {:induction false} MatchingContents(transactions: seq<Transaction>, criteria: Criteria, after: nat)
    ensures Ordered(transactions) ==> Increasing(Matching(transactions, criteria, after))
    ensures forall s :: s in Matching(transactions, criteria, after) <==>
              exists t :: t in transactions && t.sequence > after && SummarizeTransaction(t, criteria) == Some(s)
  {
    hide SummarizeTransaction;
    if Ordered(transactions) {
      MatchingIncreases(transactions, criteria, after);
    }
    hide Ordered, Increasing;
    if transactions != [] {
      MatchingContents(transactions[1..], criteria, after);
      assert forall t :: t in transactions <==> t == transactions[0] || t in transactions[1..];
    }
  }

  /** Resuming after the k-th found transaction gives exactly the ones behind it. */
  lemma {:induction false} MatchingAfter(transactions: seq<Transaction>, criteria: Criteria, after: nat, k: nat)
    requires Ordered(transactions) && k < |Matching(transactions, criteria, after)|
    ensures Matching(transactions, criteria, Matching(transactions, criteria, after)[k].sequence) ==
            Matching(transactions, criteria, after)[k + 1..]
  {
    hide SummarizeTransaction, Matching;
    MatchingStep(transactions, criteria, after);
    var first, rest := transactions[0], transactions[1..];
    var mine, later := SummariesOf(first, criteria, after), Matching(rest, criteria, after);
    MatchingLater(rest, criteria, after, first.sequence);
    if k < |mine| {
      MatchingStep(transactions, criteria, first.sequence);
      MatchingAllLater(rest, criteria, after, first.sequence);
      assert (mine + later)[1..] == later;
    } else {
      var found := later[k - |mine|];
      assert found in later;
      MatchingStep(transactions, criteria, found.sequence);
      MatchingAfter(rest, criteria, after, k - |mine|);
      assert (mine + later)[k + 1..] == later[k - |mine| + 1..];
    }
  }

  lemma MatchingStep(transactions: seq<Transaction>, criteria: Criteria, after: nat)
    ensures transactions == [] ==> Matching(transactions, criteria, after) == []
    ensures transactions != [] ==>
              Matching(transactions, criteria, after) ==
              SummariesOf(transactions[0], criteria, after) + Matching(transactions[1..], criteria, after)
  {
    hide SummariesOf;
  }

  lemma {:induction false} MatchingAllLater(transactions: seq<Transaction>, criteria: Criteria, low: nat, high: nat)
    requires low <= high && forall i :: 0 <= i < |transactions| ==> transactions[i].sequence > high
    ensures Matching(transactions, criteria, low) == Matching(transactions, criteria, high)
  {
    if transactions != [] {
      MatchingAllLater(transactions[1..], criteria, low, high);
    }
  }

  predicate ValidCursor(cursor: Option<string>) { cursor.Some? ==> ParseCursor(cursor.value).Some? }

  ghost function Start(cursor: Option<string>): nat
    requires ValidCursor(cursor)
  {
    if cursor.Some? then ParseCursor(cursor.value).value else 0
  }

  /** A page with a next cursor is followed by exactly the summaries the page left over. */
  lemma PageLeavesTheRest(transactions: seq<Transaction>, filter: Filter)
    requires Ordered(transactions) && ValidCursor(filter.cursor)
    ensures PaginateTransactions(transactions, filter).Success?
    ensures var page := PaginateTransactions(transactions, filter).value;
            var found := Matching(transactions, filter.criteria, Start(filter.cursor));
            if page.nextCursor.None? then page.items == found && |found| <= PageSize(filter.limit)
            else
              && |page.items| == PageSize(filter.limit)
              && ValidCursor(page.nextCursor)
              && found == page.items + Matching(transactions, filter.criteria, Start(page.nextCursor))
  {
    var limit, found := PageSize(filter.limit), Matching(transactions, filter.criteria, Start(filter.cursor));
    if |found| > limit {
      CutAfter(transactions, filter.criteria, Start(filter.cursor), limit);
      CursorRoundTrip(found[limit - 1].sequence);
    }
  }

  /** What a client gets: at most 500 summaries, increasing, all behind the cursor, and none left out before the next one. */
  ghost predicate IsPage(transactions: seq<Transaction>, filter: Filter, page: Page)
    requires ValidCursor(filter.cursor)
  {
    var found := Matching(transactions, filter.criteria, Start(filter.cursor));
    && |page.items| <= MAX_PAGE_SIZE && Increasing(page.items)
    && (forall s :: s in page.items ==> s.sequence > Start(filter.cursor))
    && (page.nextCursor.None? ==> page.items == found)
    && (page.nextCursor.Some? ==>
          && page.items != [] && ValidCursor(page.nextCursor)
          && found == page.items + Matching(transactions, filter.criteria, Start(page.nextCursor)))
  }

  lemma PageIsRight(transactions: seq<Transaction>, filter: Filter)
    ensures PaginateTransactions(transactions, filter).Success? <==> ValidCursor(filter.cursor)
    ensures Ordered(transactions) && ValidCursor(filter.cursor) ==>
              IsPage(transactions, filter, PaginateTransactions(transactions, filter).value)
  {
    if Ordered(transactions) && ValidCursor(filter.cursor) {
      hide Ordered, Matching, SummarizeTransaction;
      var found := Matching(transactions, filter.criteria, Start(filter.cursor));
      PageLeavesTheRest(transactions, filter);
      MatchingContents(transactions, filter.criteria, Start(filter.cursor));
      var page := PaginateTransactions(transactions, filter).value;
      assert page.items <= found;
      forall s | s in page.items ensures s.sequence > Start(filter.cursor) {
        assert s in found;
      }
    }
  }

  lemma CutAfter(transactions: seq<Transaction>, criteria: Criteria, after: nat, limit: nat)
    requires Ordered(transactions) && 0 < limit < |Matching(transactions, criteria, after)|
    ensures var found := Matching(transactions, criteria, after);
            && found[limit - 1].sequence < U64_LIMIT
            && found == found[..limit] + Matching(transactions, criteria, found[limit - 1].sequence)
  {
    var found := Matching(transactions, criteria, after);
    MatchingContents(transactions, criteria, after);
    assert found[limit - 1] in found;
    MatchingAfter(transactions, criteria, after, limit - 1);
    assert found == found[..limit] + found[limit..];
  }

  /** All items a client collects that asks for `limits(n)` on its n-th request. */
  ghost function Follow(
    transactions: seq<Transaction>, criteria: Criteria, cursor: Option<string>, limits: nat -> Option<nat>, n: nat)
    : seq<Summary>
    requires Ordered(transactions) && ValidCursor(cursor)
    decreases |Matching(transactions, criteria, Start(cursor))|
  {
    PageLeavesTheRest(transactions, Filter(criteria, cursor, limits(n)));
    var page := PaginateTransactions(transactions, Filter(criteria, cursor, limits(n))).value;
    if page.nextCursor.None? then page.items
    else page.items + Follow(transactions, criteria, page.nextCursor, limits, n + 1)
  }

  /** Cursor paging ends and yields every matching summary behind the cursor, each once and in order. */
  lemma {:induction false} PagingIsComplete(
    transactions: seq<Transaction>, criteria: Criteria, cursor: Option<string>, limits: nat -> Option<nat>, n: nat)
    requires Ordered(transactions) && ValidCursor(cursor)
    ensures Follow(transactions, criteria, cursor, limits, n) == Matching(transactions, criteria, Start(cursor))
    ensures Increasing(Follow(transactions, criteria, cursor, limits, n))
    decreases |Matching(transactions, criteria, Start(cursor))|
  {
    PageLeavesTheRest(transactions, Filter(criteria, cursor, limits(n)));
    var page := PaginateTransactions(transactions, Filter(criteria, cursor, limits(n))).value;
    if page.nextCursor.Some? {
      PagingIsComplete(transactions, criteria, page.nextCursor, limits, n + 1);
    }
    MatchingIncreases(transactions, criteria, Start(cursor));
  }

  lemma {:induction false} FoundBySequence(transactions: seq<Transaction>, sequence: nat)
    requires Ordered(transactions)
    ensures match FindTransaction(transactions, sequence)
            case Some(t) => t in transactions && t.sequence == sequence
            case None => forall t :: t in transactions ==> t.sequence != sequence
    ensures forall t :: t in transactions && t.sequence == sequence ==> FindTransaction(transactions, sequence) == Some(t)
  {
    if transactions != [] {
      FoundBySequence(transactions[1..], sequence);
      assert forall t :: t in transactions <==> t == transactions[0] || t in transactions[1..];
    }
  }

  /** A sequence is listed exactly when it can be opened under the same filter, with the same row count. */
  lemma ListedExactlyWhenOpened(transactions: seq<Transaction>, criteria: Criteria, limits: nat -> Option<nat>, sequence: nat)
    requires Ordered(transactions)
    ensures var listed, got := Follow(transactions, criteria, None, limits, 0), GetTransaction(transactions, sequence, criteria);
            && ((exists s :: s in listed && s.sequence == sequence) <==> got.Success?)
            && (forall s :: s in listed && s.sequence == sequence ==> got.value.rowChangeCount == s.rowChangeCount)
  {
    hide Follow, Matching, FindTransaction, Increasing, SummarizeTransaction, ProjectTransaction;
    PagingIsComplete(transactions, criteria, None, limits, 0);
    MatchingContents(transactions, criteria, 0);
    FoundBySequence(transactions, sequence);
    if FindTransaction(transactions, sequence).Some? {
      ProjectionAgreesWithSummary(FindTransaction(transactions, sequence).value, criteria);
    }
    if GetTransaction(transactions, sequence, criteria).Success? {
      var t := FindTransaction(transactions, sequence).value;
      assert 0 < t.sequence by {
        var i :| 0 <= i < |transactions| && transactions[i] == t;
      }
      assert SummarizeTransaction(t, criteria).value in Matching(transactions, criteria, 0);
    }
  }
}
