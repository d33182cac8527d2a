/**
 What generated statements do to tables, and what a logged transaction did to them.

 A table is a multiset of rows; a row maps its column names to stored values. What a logged cell says is
 stored and what a literal in a statement denotes are defined apart from each other. DELETE and UPDATE carry
 LIMIT 1, so any one matching row may be chosen: every statement is a relation between table states.
 */
module TableStates {
  import opened Wrappers
  import opened Binlog
  import opened ResetSql
  import opened Numerals
  import Text

  // ----- stored values

  /** What a column holds. */
  datatype Stored =
    | NullStored
    | NumberStored(number: Number)
    | TextStored(text: string)
    | BytesStored(bytes: string)
    | MomentStored(seconds: Number)
    | UnreadableBytes(base64: string)

  /** What the log says by a transport value. */
  function StoredValue(d: Decoders, value: CellValue): Stored
  {
    match value
    case NullValue => NullStored
    case BooleanValue(truth) => NumberStored(Number.Exact(if truth then 1.0 else 0.0))
    case IntegerValue(text) => NumberStored(NumberOf(Text.Trim(text)))
    case DecimalValue(text) => NumberStored(NumberOf(Text.Trim(text)))
    case FloatValue(text, _) => NumberStored(NumberOf(text))
    case TextValue(text) => TextStored(text)
    case DateTimeValue(text) => TextStored(text)
    case JsonValue(text) => TextStored(text)
    case BinaryValue(base64) =>
      match d.base64(base64)
      case Some(bytes) => BytesStored(bytes)
      case None => UnreadableBytes(base64)
  }

  /** What the log says by a cell, if it says anything complete. */
  function StoredIn(d: Decoders, cell: Cell): Option<Stored>
  {
    match cell
    case Null => Some(NullStored)
    case Value(value) => Some(StoredValue(d, value))
    case UnixTimestamp(seconds) => Some(MomentStored(NumberOf(Text.Trim(seconds))))
    case NotLogged => None
    case DecodeError => None
    case Partial(_) => None
  }

  /** What a literal stands for in a statement. */
  function Denotes(literal: Literal): Stored
  {
    match literal
    case NullLiteral => NullStored
    case NumberLiteral(text) => NumberStored(NumberOf(text))
    case StringLiteral(text) => TextStored(text)
    case BinaryLiteral(bytes) => BytesStored(bytes)
    case TimestampLiteral(seconds) => MomentStored(NumberOf(seconds))
  }

  /** The literal compiled from a cell stands for what the cell says is stored. */
  lemma LiteralDenotesCell(d: Decoders, cell: Cell)
    requires CellLiteral(d, cell).Success?
    ensures StoredIn(d, cell) == Some(Denotes(CellLiteral(d, cell).value))
  {
    hide NumberOf;
    DigitIsNumber('0');
    DigitIsNumber('1');
  }

  type Row = map<string, Stored>

  type Tables = map<TableKey, multiset<Row>>

  // ----- statements as relations

  /** The row satisfies `column <=> literal` for every listed pair. */
  predicate Matches(row: Row, pairs: Assignments)
  {
    forall i :: 0 <= i < |pairs| ==> pairs[i].0 in row && row[pairs[i].0] == Denotes(pairs[i].1)
  }

  function Assign(row: Row, pairs: Assignments): Row
  {
    if pairs == [] then row
    else
      var last := pairs[|pairs| - 1];
      Assign(row, pairs[..|pairs| - 1])[last.0 := Denotes(last.1)]
  }

  /** Replaces one chosen row of a table. */
  function Swap(tables: Tables, key: TableKey, out: Row, in_: Row): Tables
    requires key in tables
  {
    tables[key := tables[key] - multiset{out} + multiset{in_}]
  }

  function Remove(tables: Tables, key: TableKey, row: Row): Tables
    requires key in tables
  {
    tables[key := tables[key] - multiset{row}]
  }

  function Add(tables: Tables, key: TableKey, row: Row): Tables
    requires key in tables
  {
    tables[key := tables[key] + multiset{row}]
  }

  ghost predicate NoMatch(tables: Tables, key: TableKey, where: Assignments)
    requires key in tables
  {
    forall row :: row in tables[key] ==> !Matches(row, where)
  }

  /** `after` is a possible result of the statement; a missing table is an error, so it has none. */
  ghost predicate Outcome(statement: Statement, before: Tables, after: Tables)
  {
    statement.table in before &&
    match statement
    case InsertRow(key, values) => after == Add(before, key, Assign(map[], values))
    case DeleteOne(key, where) =>
      || (NoMatch(before, key, where) && after == before)
      || exists row :: row in before[key] && Matches(row, where) && after == Remove(before, key, row)
    case UpdateOne(key, set_, where) =>
      || (NoMatch(before, key, where) && after == before)
      || exists row :: row in before[key] && Matches(row, where) && after == Swap(before, key, row, Assign(row, set_))
  }

  ghost predicate RunsTo(statements: seq<Statement>, before: Tables, after: Tables)
  {
    if statements == [] then after == before
    else exists middle :: Outcome(statements[0], before, middle) && RunsTo(statements[1..], middle, after)
  }

  /** Whichever rows are chosen, the statement ends in `goal`; and it does have an outcome. */
  ghost predicate AlwaysYields(statement: Statement, before: Tables, goal: Tables)
  {
    Outcome(statement, before, goal) && forall after :: Outcome(statement, before, after) ==> after == goal
  }

  // ----- the logged transaction

  datatype Effect = Added(row: Row) | Removed(row: Row) | Replaced(was: Row, now: Row)

  /** One logged row change together with what it really did. */
  datatype Step = Step(event: RowEvent, effect: Effect) {
    function Table(): TableKey { Key(event.change) }
  }

  ghost predicate Applicable(step: Step, tables: Tables)
  {
    step.Table() in tables &&
    match step.effect
    case Added(_) => true
    case Removed(row) => row in tables[step.Table()]
    case Replaced(was, _) => was in tables[step.Table()]
  }

  ghost function Apply(step: Step, tables: Tables): Tables
    requires Applicable(step, tables)
  {
    match step.effect
    case Added(row) => Add(tables, step.Table(), row)
    case Removed(row) => Remove(tables, step.Table(), row)
    case Replaced(was, now) => Swap(tables, step.Table(), was, now)
  }

  function Columns(change: Change): set<string> { set c | c in change.columns }

  /** Every cell of the image that says what is stored says it of the row. */
  ghost predicate Shows(d: Decoders, image: Image, row: Row)
  {
    forall c :: c in image && StoredIn(d, image[c]).Some? ==> c in row && StoredIn(d, image[c]).value == row[c]
  }

  /** The log tells the truth: images show the rows, and an UPDATE omits only unchanged columns. */
  ghost predicate Recorded(d: Decoders, step: Step)
  {
    var change, row := step.event.change, step.event.row;
    match step.effect
    case Added(new_) =>
      change.operation.Insert? && new_.Keys == Columns(change) &&
      (row.after.Some? ==> Shows(d, row.after.value, new_))
    case Removed(old_) =>
      change.operation.Delete? && old_.Keys == Columns(change) &&
      (row.before.Some? ==> Shows(d, row.before.value, old_))
    case Replaced(was, now) =>
      change.operation.Update? && was.Keys == now.Keys == Columns(change) &&
      (row.before.Some? ==> Shows(d, row.before.value, was)) &&
      (row.after.Some? ==>
         Shows(d, row.after.value, now) &&
         forall c :: c in was && !IsRecorded(row.after.value, c) ==> now[c] == was[c])
  }

  /** The rows of the changed table have the columns the change names. */
  ghost predicate Shaped(change: Change, tables: Tables)
  {
    Key(change) in tables && forall row :: row in tables[Key(change)] ==> row.Keys == Columns(change)
  }

  /** `steps` is a true account of a transaction that starts in `tables`. */
  ghost predicate Account(d: Decoders, steps: seq<Step>, tables: Tables)
    decreases |steps|, 0
  {
    steps == [] ||
    var last, earlier := steps[|steps| - 1], steps[..|steps| - 1];
    && Account(d, earlier, tables)
    && Applicable(last, Final(d, earlier, tables))
    && Shaped(last.event.change, Final(d, earlier, tables))
    && Recorded(d, last)
  }

  ghost function Final(d: Decoders, steps: seq<Step>, tables: Tables): Tables
    requires Account(d, steps, tables)
    decreases |steps|, 1
  {
    if steps == [] then tables
    else Apply(steps[|steps| - 1], Final(d, steps[..|steps| - 1], tables))
  }

  lemma Peeled(d: Decoders, steps: seq<Step>, tables: Tables)
    requires Account(d, steps, tables) && steps != []
    ensures var last, earlier := steps[|steps| - 1], steps[..|steps| - 1];
            && Account(d, earlier, tables)
            && Applicable(last, Final(d, earlier, tables))
            && Shaped(last.event.change, Final(d, earlier, tables))
            && Recorded(d, last)
            && Final(d, steps, tables) == Apply(last, Final(d, earlier, tables))
  {
    hide Applicable, Shaped, Recorded, Apply;
  }

  lemma Appended(d: Decoders, earlier: seq<Step>, last: Step, tables: Tables)
    requires Account(d, earlier, tables)
    requires Applicable(last, Final(d, earlier, tables)) && Shaped(last.event.change, Final(d, earlier, tables)) && Recorded(d, last)
    ensures Account(d, earlier + [last], tables)
    ensures Final(d, earlier + [last], tables) == Apply(last, Final(d, earlier, tables))
  {
    hide Applicable, Shaped, Recorded, Apply;
    var steps := earlier + [last];
    assert steps[..|steps| - 1] == earlier && steps[|steps| - 1] == last;
  }

  function Events(steps: seq<Step>): seq<RowEvent>
  {
    seq(|steps|, i requires 0 <= i < |steps| => steps[i].event)
  }

  // ----- the tables a transaction touches exist, and stay the same ones

  /** What a step does to the rows of its table. */
  function RowsAfter(effect: Effect, rows: multiset<Row>): multiset<Row>
  {
    match effect
    case Added(row) => rows + multiset{row}
    case Removed(row) => rows - multiset{row}
    case Replaced(was, now) => rows - multiset{was} + multiset{now}
  }

  lemma ApplyIsWrite(step: Step, tables: Tables)
    requires Applicable(step, tables)
    ensures Apply(step, tables) == tables[step.Table() := RowsAfter(step.effect, tables[step.Table()])]
    ensures Apply(step, tables).Keys == tables.Keys
  {
  }

  lemma KeysStay(step: Step, tables: Tables)
    requires Applicable(step, tables)
    ensures Apply(step, tables).Keys == tables.Keys && step.Table() in tables.Keys
  {
    ApplyIsWrite(step, tables);
  }

  lemma {:induction false} FinalKeys(d: Decoders, steps: seq<Step>, tables: Tables)
    requires Account(d, steps, tables)
    ensures Final(d, steps, tables).Keys == tables.Keys
  {
    if steps != [] {
      hide Recorded, Shaped, Apply, Applicable;
      var last, earlier := steps[|steps| - 1], steps[..|steps| - 1];
      FinalKeys(d, earlier, tables);
      Peeled(d, steps, tables);
      KeysStay(last, Final(d, earlier, tables));
    }
  }

  lemma {:induction false} TablesExist(d: Decoders, steps: seq<Step>, tables: Tables, i: nat)
    requires Account(d, steps, tables) && i < |steps|
    ensures steps[i].Table() in tables
  {
    hide Recorded, Shaped, Apply, Applicable;
    var last, earlier := steps[|steps| - 1], steps[..|steps| - 1];
    Peeled(d, steps, tables);
    if i < |earlier| {
      TablesExist(d, earlier, tables, i);
    } else {
      FinalKeys(d, earlier, tables);
      KeysStay(last, Final(d, earlier, tables));
    }
  }
}
