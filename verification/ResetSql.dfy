/** The reset compiler: one inverse statement for every logged row change, last change first. */
module ResetSql {
  import opened Wrappers
  import opened Binlog
  import Text

  const MAX_RESET_STATEMENTS: nat := 10_000
  const MAX_RESET_WARNINGS: nat := 100

  /** What the decimal parser and the base64 decoder answer for a text. */
  datatype Decoders = Decoders(decimal: string -> Option<Sign>, base64: string -> Option<string>)

  datatype Sign = NonNegative | Negative

  /** A SQL literal; printing and reading back its text is the subject of module MysqlText. */
  datatype Literal =
    | NullLiteral
    | NumberLiteral(text: string)
    | StringLiteral(text: string)
    | BinaryLiteral(bytes: string)
    | TimestampLiteral(seconds: string)

  type Assignments = seq<(string, Literal)>

  datatype Statement =
    | InsertRow(table: TableKey, values: Assignments)
    | DeleteOne(table: TableKey, where: Assignments)
    | UpdateOne(table: TableKey, set_: Assignments, where: Assignments)

  datatype Reason =
    | UnknownTable | MissingBefore | MissingAfter | Undecoded | MissingBeforeValue | NothingToRestore
    | NoColumnNames | IncompleteImage | NoPredicate | BadNumber | BadTimestamp | BadFloat | BadBinary

  // ----- cells and literals

  predicate IsRecorded(image: Image, column: string)
  {
    column in image && !image[column].NotLogged?
  }

  predicate IsSqlValue(image: Image, column: string)
  {
    column in image && (image[column].Null? || image[column].Value? || image[column].UnixTimestamp?)
  }

  predicate HasUnusableCell(image: Image)
  {
    exists column :: column in image && (image[column].DecodeError? || image[column].Partial?)
  }

  predicate PlaceholderColumn(column: string)
  {
    |column| > 1 && column[0] == '@' && Text.AllDigits(column[1..])
  }

  function ValueLiteral(d: Decoders, value: CellValue): Result<Literal, Reason>
  {
    match value
    case NullValue => Success(NullLiteral)
    case BooleanValue(truth) => Success(NumberLiteral(if truth then "1" else "0"))
    case IntegerValue(text) => NumericLiteral(d, text)
    case DecimalValue(text) => NumericLiteral(d, text)
    case FloatValue(text, finite) => if finite then Success(NumberLiteral(text)) else Failure(BadFloat)
    case TextValue(text) => Success(StringLiteral(text))
    case DateTimeValue(text) => Success(StringLiteral(text))
    case JsonValue(text) => Success(StringLiteral(text))
    case BinaryValue(base64) =>
      match d.base64(base64)
      case Some(bytes) => Success(BinaryLiteral(bytes))
      case None => Failure(BadBinary)
  }

  function NumericLiteral(d: Decoders, text: string): Result<Literal, Reason>
  {
    if d.decimal(Text.Trim(text)).Some? then Success(NumberLiteral(Text.Trim(text))) else Failure(BadNumber)
  }

  function CellLiteral(d: Decoders, cell: Cell): Result<Literal, Reason>
  {
    match cell
    case Null => Success(NullLiteral)
    case Value(value) => ValueLiteral(d, value)
    case UnixTimestamp(seconds) =>
      if d.decimal(Text.Trim(seconds)) == Some(NonNegative)
      then Success(TimestampLiteral(Text.Trim(seconds))) else Failure(BadTimestamp)
    case NotLogged => Failure(IncompleteImage)
    case DecodeError => Failure(Undecoded)
    case Partial(_) => Failure(Undecoded)
  }

  // ----- one row

  function OrderedValues(d: Decoders, columns: seq<string>, image: Image, requireComplete: bool): Result<Assignments, Reason>
  {
    if HasUnusableCell(image) then Failure(Undecoded) else ColumnValues(d, columns, image, requireComplete)
  }

  function ColumnValues(d: Decoders, columns: seq<string>, image: Image, requireComplete: bool): Result<Assignments, Reason>
  {
    if columns == [] then Success([])
    else
      var column := columns[0];
      if PlaceholderColumn(column) then
        if requireComplete || IsRecorded(image, column) then Failure(NoColumnNames)
        else ColumnValues(d, columns[1..], image, requireComplete)
      else if !IsRecorded(image, column) then
        if requireComplete then Failure(IncompleteImage)
        else ColumnValues(d, columns[1..], image, requireComplete)
      else
        var literal :- CellLiteral(d, image[column]);
        var rest :- ColumnValues(d, columns[1..], image, requireComplete);
        Success([(column, literal)] + rest)
  }

  function PredicateValues(d: Decoders, columns: seq<string>, image: Image): Result<Assignments, Reason>
  {
    var values :- OrderedValues(d, columns, image, false);
    if values == [] then Failure(NoPredicate) else Success(values)
  }

  /** The row as it stands after the UPDATE: the before image overlaid with the after image. */
  function Current(before: Image, after: Image): Image
  {
    (map c | c in before && IsSqlValue(before, c) :: before[c]) +
    (map c | c in after && IsSqlValue(after, c) :: after[c])
  }

  function ResetInsert(d: Decoders, change: Change, after: Option<Image>): Result<Statement, Reason>
  {
    if change.database == [] || change.table == [] then Failure(UnknownTable)
    else if after.None? then Failure(MissingAfter)
    else
      var where :- PredicateValues(d, change.columns, after.value);
      Success(DeleteOne(Key(change), where))
  }

  function ResetUpdate(d: Decoders, change: Change, before: Option<Image>, after: Option<Image>): Result<Statement, Reason>
  {
    if change.database == [] || change.table == [] then Failure(UnknownTable)
    else if before.None? then Failure(MissingBefore)
    else if after.None? then Failure(MissingAfter)
    else if HasUnusableCell(before.value) || HasUnusableCell(after.value) then Failure(Undecoded)
    else if !BeforeCoversAfter(change.columns, before.value, after.value) then Failure(MissingBeforeValue)
    else
      var set_ :- OrderedValues(d, change.columns, before.value, false);
      if set_ == [] then Failure(NothingToRestore)
      else
        var where :- PredicateValues(d, change.columns, Current(before.value, after.value));
        Success(UpdateOne(Key(change), set_, where))
  }

  predicate BeforeCoversAfter(columns: seq<string>, before: Image, after: Image)
  {
    forall c :: c in columns && IsRecorded(after, c) ==> IsSqlValue(before, c)
  }

  function ResetDelete(d: Decoders, change: Change, before: Option<Image>): Result<Statement, Reason>
  {
    if change.database == [] || change.table == [] then Failure(UnknownTable)
    else if before.None? then Failure(MissingBefore)
    else
      var values :- OrderedValues(d, change.columns, before.value, true);
      if values == [] then Failure(NothingToRestore) else Success(InsertRow(Key(change), values))
  }

  function ResetRow(d: Decoders, change: Change, row: RowChange): Result<Statement, Reason>
    requires !change.operation.Ddl?
  {
    match change.operation
    case Insert => ResetInsert(d, change, row.after)
    case Update => ResetUpdate(d, change, row.before, row.after)
    case Delete => ResetDelete(d, change, row.before)
  }

  // ----- the loops of one row

  function Onto(values: Assignments, r: Result<Assignments, Reason>): Result<Assignments, Reason>
  {
    match r
    case Success(rest) => Success(values + rest)
    case Failure(e) => Failure(e)
  }

  lemma OntoNothing(r: Result<Assignments, Reason>)
    ensures Onto([], r) == r
  {
    if r.Success? {
      assert [] + r.value == r.value;
    }
  }

  lemma OntoAppend(values: Assignments, value: (string, Literal), r: Result<Assignments, Reason>)
    ensures Onto(values + [value], r) == Onto(values, Onto([value], r))
  {
    if r.Success? {
      assert values + [value] + r.value == values + ([value] + r.value);
    }
  }

  method ComputeOrderedValues(d: Decoders, columns: seq<string>, image: Image, requireComplete: bool)
    returns (r: Result<Assignments, Reason>)
    ensures r == OrderedValues(d, columns, image, requireComplete)
  {
    if HasUnusableCell(image) {
      return Failure(Undecoded);
    }
    var values: Assignments := [];
    assert columns[0..] == columns;
    OntoNothing(ColumnValues(d, columns, image, requireComplete));
    for i := 0 to |columns|
      invariant ColumnValues(d, columns, image, requireComplete) ==
                Onto(values, ColumnValues(d, columns[i..], image, requireComplete))
    {
      var column := columns[i];
      assert columns[i..][0] == column && columns[i..][1..] == columns[i + 1..];
      if PlaceholderColumn(column) {
        if requireComplete || IsRecorded(image, column) {
          return Failure(NoColumnNames);
        }
      } else if !IsRecorded(image, column) {
        if requireComplete {
          return Failure(IncompleteImage);
        }
      } else {
        var literal := CellLiteral(d, image[column]);
        if literal.Failure? {
          return Failure(literal.error);
        }
        OntoAppend(values, (column, literal.value), ColumnValues(d, columns[i + 1..], image, requireComplete));
        values := values + [(column, literal.value)];
      }
    }
    assert values + [] == values;
    r := Success(values);
  }

  /** Copies the usable cells of an image into the map being built. */
  method CopyUsable(image: Image, into: Image) returns (r: Image)
    ensures r == into + (map c | c in image && IsSqlValue(image, c) :: image[c])
  {
    r := into;
    var todo := image.Keys;
    while todo != {}
      invariant todo <= image.Keys
      invariant r == into + (map c | c in image && c !in todo && IsSqlValue(image, c) :: image[c])
    {
      var column :| column in todo;
      if IsSqlValue(image, column) {
        r := r[column := image[column]];
      }
      todo := todo - {column};
    }
  }

  method ComputeResetUpdate(d: Decoders, change: Change, before: Option<Image>, after: Option<Image>)
    returns (r: Result<Statement, Reason>)
    ensures r == ResetUpdate(d, change, before, after)
  {
    if change.database == [] || change.table == [] {
      return Failure(UnknownTable);
    }
    if before.None? {
      return Failure(MissingBefore);
    }
    if after.None? {
      return Failure(MissingAfter);
    }
    if HasUnusableCell(before.value) || HasUnusableCell(after.value) {
      return Failure(Undecoded);
    }
    for i := 0 to |change.columns|
      invariant forall j :: 0 <= j < i ==>
                  IsRecorded(after.value, change.columns[j]) ==> IsSqlValue(before.value, change.columns[j])
    {
      var column := change.columns[i];
      if IsRecorded(after.value, column) && !IsSqlValue(before.value, column) {
        return Failure(MissingBeforeValue);
      }
    }
    var assignments := ComputeOrderedValues(d, change.columns, before.value, false);
    if assignments.Failure? {
      return Failure(assignments.error);
    }
    if assignments.value == [] {
      return Failure(NothingToRestore);
    }
    var current := CopyUsable(before.value, map[]);
    current := CopyUsable(after.value, current);
    assert current == Current(before.value, after.value);
    var predicates := ComputeOrderedValues(d, change.columns, current, false);
    if predicates.Failure? {
      return Failure(predicates.error);
    }
    if predicates.value == [] {
      return Failure(NoPredicate);
    }
    r := Success(UpdateOne(Key(change), assignments.value, predicates.value));
  }

  // ----- a whole transaction

  datatype Warning =
    | NotCommitted
    | NoReversibleChanges
    | SkippedDdl(change: nat)
    | SkippedWithoutRows(change: nat)
    | SkippedRow(change: nat, row: nat, reason: Reason)
    | StatementsTruncated
    | WarningsOmitted

  /** The builder's fields as a value. */
  datatype Draft = Draft(statements: seq<Statement>, warnings: seq<Warning>, warningsTruncated: bool) {

    function WithWarning(warning: Warning): Draft
    {
      if |warnings| < MAX_RESET_WARNINGS then this.(warnings := warnings + [warning])
      else if !warningsTruncated then this.(warnings := warnings + [WarningsOmitted], warningsTruncated := true)
      else this
    }

    predicate Full() { |statements| >= MAX_RESET_STATEMENTS }

    function WithStatement(statement: Statement): Draft
    {
      if Full() then WithWarning(StatementsTruncated) else this.(statements := statements + [statement])
    }
  }

  const EMPTY_DRAFT := Draft([], [], false)

  class ResetSqlBuilder {
    var statements: seq<Statement>
    var warnings: seq<Warning>
    var warningsTruncated: bool

    constructor ()
      ensures State() == EMPTY_DRAFT
    {
      statements, warnings, warningsTruncated := [], [], false;
    }

    ghost function State(): Draft
      reads this
    {
      Draft(statements, warnings, warningsTruncated)
    }

    method PushWarning(warning: Warning)
      modifies this
      ensures State() == old(State()).WithWarning(warning)
    {
      if |warnings| < MAX_RESET_WARNINGS {
        warnings := warnings + [warning];
      } else if !warningsTruncated {
        warningsTruncated := true;
        warnings := warnings + [WarningsOmitted];
      }
    }

    method PushStatement(statement: Statement) returns (accepted: bool)
      modifies this
      ensures accepted <==> !old(State()).Full()
      ensures State() == old(State()).WithStatement(statement)
    {
      if |statements| >= MAX_RESET_STATEMENTS {
        PushWarning(StatementsTruncated);
        return false;
      }
      statements := statements + [statement];
      return true;
    }
  }

  /** What one visited row or skipped change contributes. */
  datatype Item = Skip(warning: Warning) | Reversed(statement: Statement)

  function RowItem(d: Decoders, change: Change, changeIndex: nat, rowIndex: nat): Item
    requires !change.operation.Ddl? && rowIndex < |change.rows|
  {
    match ResetRow(d, change, change.rows[rowIndex])
    case Success(statement) => Reversed(statement)
    case Failure(reason) => Skip(SkippedRow(changeIndex + 1, rowIndex + 1, reason))
  }

  /** Rows before `upTo`, last first. */
  function RowItems(d: Decoders, change: Change, changeIndex: nat, upTo: nat): seq<Item>
    requires !change.operation.Ddl? && upTo <= |change.rows|
  {
    if upTo == 0 then []
    else [RowItem(d, change, changeIndex, upTo - 1)] + RowItems(d, change, changeIndex, upTo - 1)
  }

  function ChangeItems(d: Decoders, change: Change, changeIndex: nat): seq<Item>
  {
    if change.operation.Ddl? then [Skip(SkippedDdl(changeIndex + 1))]
    else if change.rows == [] then [Skip(SkippedWithoutRows(changeIndex + 1))]
    else RowItems(d, change, changeIndex, |change.rows|)
  }

  /** All items in visiting order: the last change first. */
  function Items(d: Decoders, changes: seq<Change>): seq<Item>
  {
    if changes == [] then []
    else
      var last := |changes| - 1;
      ChangeItems(d, changes[last], last) + Items(d, changes[..last])
  }

  /** Feeds items to a draft; a refused statement ends the visit. */
  function Feed(draft: Draft, items: seq<Item>): Draft
    decreases |items|
  {
    if items == [] then draft
    else
      match items[0]
      case Skip(warning) => Feed(draft.WithWarning(warning), items[1..])
      case Reversed(statement) =>
        if draft.Full() then draft.WithStatement(statement)
        else Feed(draft.WithStatement(statement), items[1..])
  }

  datatype Output = Output(statements: seq<Statement>, complete: bool, warnings: seq<Warning>)

  function Finish(draft: Draft): Output
  {
    Output(draft.statements, |draft.statements| > 0 && draft.warnings == [], draft.warnings)
  }

  function Generate(d: Decoders, transaction: Transaction): Output
  {
    if !transaction.status.Committed? then Finish(EMPTY_DRAFT.WithWarning(NotCommitted))
    else if transaction.changes == [] then Finish(EMPTY_DRAFT.WithWarning(NoReversibleChanges))
    else
      var draft := Feed(EMPTY_DRAFT, Items(d, transaction.changes));
      if draft.statements == [] && draft.warnings == [] then Finish(draft.WithWarning(NoReversibleChanges))
      else Finish(draft)
  }

  method ComputeResetRow(d: Decoders, change: Change, row: RowChange) returns (r: Result<Statement, Reason>)
    requires !change.operation.Ddl?
    ensures r == ResetRow(d, change, row)
  {
    match change.operation {
      case Insert => r := ResetInsert(d, change, row.after);
      case Update => r := ComputeResetUpdate(d, change, row.before, row.after);
      case Delete => r := ResetDelete(d, change, row.before);
    }
  }

  method GenerateTransactionResetSql(d: Decoders, transaction: Transaction) returns (output: Output)
    ensures output == Generate(d, transaction)
  {
    var builder := new ResetSqlBuilder();
    if !transaction.status.Committed? {
      builder.PushWarning(NotCommitted);
      return Finish(Draft(builder.statements, builder.warnings, builder.warningsTruncated));
    }
    if transaction.changes == [] {
      builder.PushWarning(NoReversibleChanges);
      return Finish(Draft(builder.statements, builder.warnings, builder.warningsTruncated));
    }
    var changes := transaction.changes;
    ghost var goal := Feed(EMPTY_DRAFT, Items(d, changes));
    assert changes[..|changes|] == changes;
    for i := |changes| downto 0
      invariant goal == Feed(builder.State(), Items(d, changes[..i]))
    {
      var change := changes[i];
      ghost var later := Items(d, changes[..i]);
      assert changes[..i + 1][..i] == changes[..i];
      assert Items(d, changes[..i + 1]) == ChangeItems(d, change, i) + later;
      if change.operation.Ddl? {
        FeedSkip(builder.State(), SkippedDdl(i + 1), later);
        builder.PushWarning(SkippedDdl(i + 1));
        continue;
      }
      if change.rows == [] {
        FeedSkip(builder.State(), SkippedWithoutRows(i + 1), later);
        builder.PushWarning(SkippedWithoutRows(i + 1));
        continue;
      }
      var accepted := VisitRows(d, builder, change, i, later);
      if !accepted {
        break;
      }
    }
    assert builder.State() == goal;
    if builder.statements == [] && builder.warnings == [] {
      builder.PushWarning(NoReversibleChanges);
    }
    output := Finish(Draft(builder.statements, builder.warnings, builder.warningsTruncated));
  }

  /** Visits the rows of one change backwards; `later` stands for the items still to come. */
  method VisitRows(d: Decoders, builder: ResetSqlBuilder, change: Change, changeIndex: nat, ghost later: seq<Item>)
    returns (accepted: bool)
    requires !change.operation.Ddl?
    modifies builder
    ensures Feed(old(builder.State()), RowItems(d, change, changeIndex, |change.rows|) + later) ==
            if accepted then Feed(builder.State(), later) else builder.State()
  {
    ghost var goal := Feed(builder.State(), RowItems(d, change, changeIndex, |change.rows|) + later);
    for j := |change.rows| downto 0
      invariant goal == Feed(builder.State(), RowItems(d, change, changeIndex, j) + later)
    {
      ghost var item, rest := RowItem(d, change, changeIndex, j), RowItems(d, change, changeIndex, j) + later;
      assert RowItems(d, change, changeIndex, j + 1) + later == [item] + rest;
      var result := ComputeResetRow(d, change, change.rows[j]);
      if result.Success? {
        FeedStatement(builder.State(), result.value, rest);
        accepted := builder.PushStatement(result.value);
        if !accepted {
          return;
        }
      } else {
        FeedSkip(builder.State(), SkippedRow(changeIndex + 1, j + 1, result.error), rest);
        builder.PushWarning(SkippedRow(changeIndex + 1, j + 1, result.error));
      }
    }
    assert RowItems(d, change, changeIndex, 0) + later == later;
    accepted := true;
  }

  lemma FeedSkip(draft: Draft, warning: Warning, rest: seq<Item>)
    ensures Feed(draft, [Skip(warning)] + rest) == Feed(draft.WithWarning(warning), rest)
  {
    assert ([Skip(warning)] + rest)[1..] == rest;
  }

  lemma FeedStatement(draft: Draft, statement: Statement, rest: seq<Item>)
    ensures Feed(draft, [Reversed(statement)] + rest) ==
            if draft.Full() then draft.WithStatement(statement) else Feed(draft.WithStatement(statement), rest)
  {
    assert ([Reversed(statement)] + rest)[1..] == rest;
  }

  // ----- when the output is complete

  datatype RowEvent = RowEvent(change: Change, row: RowChange)

  /** The logged row changes in commit order. */
  function RowEvents(changes: seq<Change>): seq<RowEvent>
  {
    if changes == [] then []
    else
      var last := changes[|changes| - 1];
      RowEvents(changes[..|changes| - 1]) + seq(|last.rows|, i requires 0 <= i < |last.rows| => RowEvent(last, last.rows[i]))
  }

  predicate Reversible(d: Decoders, event: RowEvent)
  {
    !event.change.operation.Ddl? && ResetRow(d, event.change, event.row).Success?
  }

  predicate AllReversible(d: Decoders, events: seq<RowEvent>)
  {
    forall i :: 0 <= i < |events| ==> Reversible(d, events[i])
  }

  /** One inverse statement per row change, the last change first. */
  function Inverses(d: Decoders, events: seq<RowEvent>): seq<Statement>
    requires AllReversible(d, events)
  {
    if events == [] then []
    else
      var last := events[|events| - 1];
      [ResetRow(d, last.change, last.row).value] + Inverses(d, events[..|events| - 1])
  }

  predicate EveryChangeHasRows(changes: seq<Change>)
  {
    forall i :: 0 <= i < |changes| ==> !changes[i].operation.Ddl? && changes[i].rows != []
  }

  function Statements(items: seq<Item>): seq<Statement>
    requires forall i :: 0 <= i < |items| ==> items[i].Reversed?
  {
    seq(|items|, i requires 0 <= i < |items| => items[i].statement)
  }

  /** A visit stays free of warnings exactly when every item is a statement and all of them fit. */
  lemma {:induction false} FeedIsClean(draft: Draft, items: seq<Item>)
    requires |draft.statements| <= MAX_RESET_STATEMENTS
    requires draft.warnings == []
    ensures Feed(draft, items).warnings == [] <==>
            (forall i :: 0 <= i < |items| ==> items[i].Reversed?) && |draft.statements| + |items| <= MAX_RESET_STATEMENTS
    ensures Feed(draft, items).warnings == [] ==> Feed(draft, items).statements == draft.statements + Statements(items)
    decreases |items|
  {
    if items == [] {
    } else if items[0].Skip? {
      WarningsStay(draft.WithWarning(items[0].warning), items[1..]);
    } else if !draft.Full() {
      FeedIsClean(draft.WithStatement(items[0].statement), items[1..]);
      assert forall i :: 0 < i < |items| ==> items[i] == items[1..][i - 1];
    }
  }

  lemma {:induction false} WarningsStay(draft: Draft, items: seq<Item>)
    requires draft.warnings != []
    ensures Feed(draft, items).warnings != []
    decreases |items|
  {
    if items == [] {
    } else if items[0].Skip? {
      WarningsStay(draft.WithWarning(items[0].warning), items[1..]);
    } else if !draft.Full() {
      WarningsStay(draft.WithStatement(items[0].statement), items[1..]);
    }
  }

  ghost predicate AllStatements(items: seq<Item>)
  {
    forall i :: 0 <= i < |items| ==> items[i].Reversed?
  }

  lemma {:induction false} RowItemsShape(d: Decoders, change: Change, changeIndex: nat, upTo: nat)
    requires !change.operation.Ddl? && upTo <= |change.rows|
    ensures var items := RowItems(d, change, changeIndex, upTo);
            |items| == upTo &&
            forall i :: 0 <= i < upTo ==> items[i] == RowItem(d, change, changeIndex, upTo - 1 - i)
  {
    if upTo > 0 {
      RowItemsShape(d, change, changeIndex, upTo - 1);
    }
  }

  ghost predicate Mirrors(d: Decoders, item: Item, event: RowEvent)
  {
    !event.change.operation.Ddl? &&
    match ResetRow(d, event.change, event.row)
    case Success(statement) => item == Reversed(statement)
    case Failure(_) => item.Skip?
  }

  /** The items are the events in reverse. */
  ghost predicate MirrorAll(d: Decoders, items: seq<Item>, events: seq<RowEvent>)
  {
    |items| == |events| && forall i :: 0 <= i < |items| ==> Mirrors(d, items[i], events[|events| - 1 - i])
  }

  lemma MirrorConcat(d: Decoders, later: seq<Item>, laterEvents: seq<RowEvent>, earlier: seq<Item>, earlierEvents: seq<RowEvent>)
    requires MirrorAll(d, later, laterEvents) && MirrorAll(d, earlier, earlierEvents)
    ensures MirrorAll(d, later + earlier, earlierEvents + laterEvents)
  {
    hide Mirrors;
    var items: seq<Item>, events := later + earlier, earlierEvents + laterEvents;
    forall i | 0 <= i < |items| ensures Mirrors(d, items[i], events[|events| - 1 - i]) {
      if i < |later| {
        assert Mirrors(d, later[i], laterEvents[|later| - 1 - i]);
      } else {
        assert Mirrors(d, earlier[i - |later|], earlierEvents[|earlier| - 1 - (i - |later|)]);
      }
    }
  }

  lemma MirrorRows(d: Decoders, change: Change, changeIndex: nat, events: seq<RowEvent>)
    requires !change.operation.Ddl? && |events| == |change.rows|
    requires forall i :: 0 <= i < |events| ==> events[i] == RowEvent(change, change.rows[i])
    ensures MirrorAll(d, RowItems(d, change, changeIndex, |change.rows|), events)
  {
    hide ResetRow;
    RowItemsShape(d, change, changeIndex, |change.rows|);
    var items, n := RowItems(d, change, changeIndex, |change.rows|), |change.rows|;
    forall i | 0 <= i < n ensures Mirrors(d, items[i], events[n - 1 - i]) {
      assert items[i] == RowItem(d, change, changeIndex, n - 1 - i);
    }
  }

  /** With a row in every change, the visited items are the row changes backwards. */
  lemma {:induction false} ItemsAreRowEventsBackwards(d: Decoders, changes: seq<Change>)
    requires EveryChangeHasRows(changes)
    ensures MirrorAll(d, Items(d, changes), RowEvents(changes))
  {
    if changes != [] {
      hide Mirrors, MirrorAll, RowItems;
      var n := |changes| - 1;
      var last := changes[n];
      ItemsAreRowEventsBackwards(d, changes[..n]);
      var mine := seq(|last.rows|, i requires 0 <= i < |last.rows| => RowEvent(last, last.rows[i]));
      MirrorRows(d, last, n, mine);
      MirrorConcat(d, RowItems(d, last, n, |last.rows|), mine, Items(d, changes[..n]), RowEvents(changes[..n]));
      assert RowEvents(changes) == RowEvents(changes[..n]) + mine;
    }
  }

  lemma {:induction false} InversesAt(d: Decoders, events: seq<RowEvent>)
    requires AllReversible(d, events)
    ensures |Inverses(d, events)| == |events|
    ensures forall i :: 0 <= i < |events| ==>
              var event := events[|events| - 1 - i];
              Inverses(d, events)[i] == ResetRow(d, event.change, event.row).value
  {
    hide ResetRow;
    if events != [] {
      InversesAt(d, events[..|events| - 1]);
    }
  }

  /** A skipped change always leaves a warning. */
  lemma {:induction false} SkippedChangeSpoils(d: Decoders, changes: seq<Change>)
    requires !EveryChangeHasRows(changes)
    ensures !AllStatements(Items(d, changes))
  {
    hide ResetRow, RowItems, ChangeItems;
    var last := |changes| - 1;
    var mine: seq<Item>, earlier: seq<Item> := ChangeItems(d, changes[last], last), Items(d, changes[..last]);
    if changes[last].operation.Ddl? || changes[last].rows == [] {
      SkippedAlone(d, changes[last], last);
      assert (mine + earlier)[0] == mine[0];
    } else {
      SkippedChangeSpoils(d, changes[..last]);
      var k :| 0 <= k < |earlier| && !earlier[k].Reversed?;
      assert (mine + earlier)[|mine| + k] == earlier[k];
    }
  }

  lemma SkippedAlone(d: Decoders, change: Change, changeIndex: nat)
    requires change.operation.Ddl? || change.rows == []
    ensures |ChangeItems(d, change, changeIndex)| == 1 && ChangeItems(d, change, changeIndex)[0].Skip?
  {
  }

  /** The condition under which the output calls itself complete. */
  ghost predicate Invertible(d: Decoders, transaction: Transaction)
  {
    && transaction.status.Committed?
    && transaction.changes != []
    && EveryChangeHasRows(transaction.changes)
    && AllReversible(d, RowEvents(transaction.changes))
    && |RowEvents(transaction.changes)| <= MAX_RESET_STATEMENTS
  }

  lemma CompleteExactlyWhenInvertible(d: Decoders, transaction: Transaction)
    ensures Generate(d, transaction).complete <==> Invertible(d, transaction)
    ensures Generate(d, transaction).complete ==>
              Generate(d, transaction).statements == Inverses(d, RowEvents(transaction.changes))
  {
    hide ResetRow, Feed, RowEvents, Items, Inverses;
    var changes := transaction.changes;
    if transaction.status.Committed? && changes != [] {
      var items, events := Items(d, changes), RowEvents(changes);
      FeedIsClean(EMPTY_DRAFT, items);
      if EveryChangeHasRows(changes) {
        ItemsAreRowEventsBackwards(d, changes);
        HasRowEvent(changes);
        if AllStatements(items) {
          forall j | 0 <= j < |events| ensures Reversible(d, events[j]) {
            assert Mirrors(d, items[|events| - 1 - j], events[j]);
          }
          InversesAt(d, events);
        } else {
          var k :| 0 <= k < |items| && !items[k].Reversed?;
          assert !Reversible(d, events[|events| - 1 - k]);
        }
      } else {
        SkippedChangeSpoils(d, changes);
      }
    }
  }

  lemma HasRowEvent(changes: seq<Change>)
    requires changes != [] && EveryChangeHasRows(changes)
    ensures RowEvents(changes) != []
  {
  }
}
