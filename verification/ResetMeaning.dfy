/** When running the generated statements undoes the whole transaction, and that `complete` alone is not enough. */
module ResetMeaning {
  import opened Wrappers
  import opened Binlog
  import opened ResetSql
  import opened Numerals
  import opened TableStates
  import opened RowReset

  // ----- the whole transaction

  /** Each statement is unambiguous in the state its row change left behind. */
  ghost predicate UnambiguousThroughout(d: Decoders, steps: seq<Step>, tables: Tables)
    requires Account(d, steps, tables)
  {
    steps == [] ||
    var last, earlier := steps[|steps| - 1], steps[..|steps| - 1];
    && Reversible(d, last.event)
    && UnambiguousThroughout(d, earlier, tables)
    && (var statement := ResetRow(d, last.event.change, last.event.row).value;
        statement.table in Final(d, steps, tables) && Unambiguous(statement, last.effect, Final(d, steps, tables)))
  }

  /** One decisive statement in front of a decisive list. */
  lemma RunsToAfter(statement: Statement, rest: seq<Statement>, before: Tables, middle: Tables, goal: Tables)
    requires AlwaysYields(statement, before, middle)
    requires RunsTo(rest, middle, goal) && forall end :: RunsTo(rest, middle, end) ==> end == goal
    ensures RunsTo([statement] + rest, before, goal)
    ensures forall end :: RunsTo([statement] + rest, before, end) ==> end == goal
  {
    var all := [statement] + rest;
    assert all[0] == statement && all[1..] == rest;
    assert Outcome(all[0], before, middle) && RunsTo(all[1..], middle, goal);
    forall end | RunsTo(all, before, end) ensures end == goal {
      var m :| Outcome(all[0], before, m) && RunsTo(all[1..], m, end);
      assert m == middle;
    }
  }

  /** The generated statements undo the transaction whichever row each LIMIT 1 picks. */
  lemma {:induction false} ResetUndoes(d: Decoders, steps: seq<Step>, tables: Tables)
    requires Account(d, steps, tables) && AllReversible(d, Events(steps))
    requires UnambiguousThroughout(d, steps, tables)
    ensures RunsTo(Inverses(d, Events(steps)), Final(d, steps, tables), tables)
    ensures forall end :: RunsTo(Inverses(d, Events(steps)), Final(d, steps, tables), end) ==> end == tables
  {
    if steps != [] {
      var last, earlier := steps[|steps| - 1], steps[..|steps| - 1];
      LastInverse(d, steps);
      var statement, rest := ResetRow(d, last.event.change, last.event.row).value, Inverses(d, Events(earlier));
      ResetUndoes(d, earlier, tables);
      RowResetExactly(d, last, Final(d, earlier, tables), statement);
      RunsToAfter(statement, rest, Final(d, steps, tables), Final(d, earlier, tables), tables);
    }
  }

  lemma LastInverse(d: Decoders, steps: seq<Step>)
    requires steps != [] && AllReversible(d, Events(steps))
    ensures var last, earlier := steps[|steps| - 1], steps[..|steps| - 1];
            && Reversible(d, last.event)
            && AllReversible(d, Events(earlier))
            && Inverses(d, Events(steps)) ==
               [ResetRow(d, last.event.change, last.event.row).value] + Inverses(d, Events(earlier))
  {
    var events := Events(steps);
    assert events[|events| - 1] == steps[|steps| - 1].event;
    assert Events(steps[..|steps| - 1]) == events[..|events| - 1];
    assert Reversible(d, events[|events| - 1]);
  }

  /** The step's own inverse identifies its row; full images make sure of it. */
  ghost predicate IsIdentified(d: Decoders, step: Step)
  {
    Reversible(d, step.event) ==> Identifies(step.event.change, ResetRow(d, step.event.change, step.event.row).value)
  }

  lemma FullImagesAreIdentified(d: Decoders, step: Step)
    requires FullImages(step)
    ensures IsIdentified(d, step)
  {
    hide FullImages, ResetRow, Identifies;
    if Reversible(d, step.event) {
      FullImagesIdentify(d, step, ResetRow(d, step.event.change, step.event.row).value);
    }
  }

  lemma {:induction false} IdentifiedThroughout(d: Decoders, steps: seq<Step>, tables: Tables)
    requires Account(d, steps, tables) && AllReversible(d, Events(steps))
    requires forall i :: 0 <= i < |steps| ==> IsIdentified(d, steps[i])
    ensures UnambiguousThroughout(d, steps, tables)
  {
    if steps != [] {
      hide Identifies, Unambiguous, Recorded, Shaped, Applicable, Apply;
      var last, earlier := steps[|steps| - 1], steps[..|steps| - 1];
      LastInverse(d, steps);
      IdentifiedThroughout(d, earlier, tables);
      Peeled(d, steps, tables);
      assert IsIdentified(d, last);
      IdentifiedIsUnambiguous(d, last, Final(d, earlier, tables), ResetRow(d, last.event.change, last.event.row).value);
    }
  }

  /** A complete output whose statements identify their rows is a true inverse of its transaction. */
  lemma CompleteResetIsInverse(d: Decoders, transaction: Transaction, steps: seq<Step>, tables: Tables)
    requires Generate(d, transaction).complete
    requires Account(d, steps, tables) && Events(steps) == RowEvents(transaction.changes)
    requires forall i :: 0 <= i < |steps| ==> IsIdentified(d, steps[i])
    ensures RunsTo(Generate(d, transaction).statements, Final(d, steps, tables), tables)
    ensures forall end :: RunsTo(Generate(d, transaction).statements, Final(d, steps, tables), end) ==> end == tables
  {
    hide IsIdentified, Account;
    CompleteExactlyWhenInvertible(d, transaction);
    IdentifiedThroughout(d, steps, tables);
    ResetUndoes(d, steps, tables);
  }

  /** Over full images, a complete output restores the earlier tables in every execution. */
  lemma FullImagesResetIsInverse(d: Decoders, transaction: Transaction, steps: seq<Step>, tables: Tables)
    requires Generate(d, transaction).complete
    requires Account(d, steps, tables) && Events(steps) == RowEvents(transaction.changes)
    requires forall i :: 0 <= i < |steps| ==> FullImages(steps[i])
    ensures RunsTo(Generate(d, transaction).statements, Final(d, steps, tables), tables)
    ensures forall end :: RunsTo(Generate(d, transaction).statements, Final(d, steps, tables), end) ==> end == tables
  {
    hide FullImages, IsIdentified, Account, Generate, RunsTo;
    forall i | 0 <= i < |steps| ensures IsIdentified(d, steps[i]) {
      FullImagesAreIdentified(d, steps[i]);
    }
    CompleteResetIsInverse(d, transaction, steps, tables);
  }

  // ----- complete alone is not enough

  const ORDERS: TableKey := ("shop", "orders")

  /** An INSERT logged with a minimal image: the key column is not in it. */
  function MinimalInsert(): Change
  {
    Change("shop", "orders", Insert, 1, ["id", "note"],
           [RowChange(None, Some(map["id" := NotLogged, "note" := Null]))], Confidence.Exact, None)
  }

  function OrderRow(id: char): Row { map["id" := NumberStored(NumberOf([id])), "note" := NullStored] }

  /** The inverse generated for it finds its row by the logged column only. */
  lemma MinimalInsertInverse(d: Decoders)
    ensures ResetRow(d, MinimalInsert(), MinimalInsert().rows[0]) == Success(DeleteOne(ORDERS, [("note", NullLiteral)]))
  {
    var change := MinimalInsert();
    var image := change.rows[0].after.value;
    assert !PlaceholderColumn("id") && !PlaceholderColumn("note");
    assert change.columns[1..] == ["note"] && ["note"][1..] == [];
    assert ColumnValues(d, [], image, false) == Success([]);
    assert [("note", NullLiteral)] + [] == [("note", NullLiteral)];
    assert ColumnValues(d, ["note"], image, false) == Success([("note", NullLiteral)]);
    assert ColumnValues(d, change.columns, image, false) == Success([("note", NullLiteral)]);
  }

  const NOTE_STEP := Step(RowEvent(MinimalInsert(), MinimalInsert().rows[0]), Added(OrderRow('2')))

  /** A committed change of one reversible row compiles to its one inverse. */
  lemma SingleRowOutput(d: Decoders, transaction: Transaction, change: Change, row: RowChange)
    requires transaction.status.Committed? && transaction.changes == [change] && change.rows == [row]
    requires Reversible(d, RowEvent(change, row))
    ensures RowEvents(transaction.changes) == [RowEvent(change, row)]
    ensures Generate(d, transaction).complete
    ensures Generate(d, transaction).statements == [ResetRow(d, change, row).value]
  {
    hide ResetRow, Generate;
    assert transaction.changes[..0] == [] && RowEvents([]) == [];
    var events := RowEvents(transaction.changes);
    assert events == [RowEvent(change, row)] && events[..0] == [];
    CompleteExactlyWhenInvertible(d, transaction);
    assert Inverses(d, []) == [];
  }

  lemma MinimalInsertOutput(d: Decoders, transaction: Transaction)
    requires transaction.status.Committed? && transaction.changes == [MinimalInsert()]
    ensures Generate(d, transaction).complete
    ensures Generate(d, transaction).statements == [DeleteOne(ORDERS, [("note", NullLiteral)])]
    ensures RowEvents(transaction.changes) == [NOTE_STEP.event]
  {
    var change := MinimalInsert();
    MinimalInsertInverse(d);
    assert change.rows == [change.rows[0]] && !change.operation.Ddl?;
    hide MinimalInsert, OrderRow, ResetRow, Generate, RowEvents;
    SingleRowOutput(d, transaction, change, change.rows[0]);
  }

  lemma MinimalInsertIsRecorded(d: Decoders, tables: Tables)
    requires tables == map[ORDERS := multiset{OrderRow('1')}]
    ensures Recorded(d, NOTE_STEP) && Shaped(NOTE_STEP.event.change, tables) && Applicable(NOTE_STEP, tables)
  {
    assert OrderRow('1').Keys == Columns(MinimalInsert()) == OrderRow('2').Keys;
  }

  lemma MinimalInsertAccount(d: Decoders, tables: Tables)
    requires tables == map[ORDERS := multiset{OrderRow('1')}]
    ensures Account(d, [NOTE_STEP], tables)
    ensures Final(d, [NOTE_STEP], tables) == Add(tables, ORDERS, OrderRow('2'))
  {
    hide Recorded, Shaped, OrderRow, MinimalInsert;
    MinimalInsertIsRecorded(d, tables);
    assert Account(d, [], tables) && Final(d, [], tables) == tables;
    Appended(d, [], NOTE_STEP, tables);
    assert [] + [NOTE_STEP] == [NOTE_STEP];
  }

  lemma WrongRowDeleted(tables: Tables)
    requires tables == map[ORDERS := multiset{OrderRow('1')}]
    ensures var after := Add(tables, ORDERS, OrderRow('2'));
            var end := Remove(after, ORDERS, OrderRow('1'));
            RunsTo([DeleteOne(ORDERS, [("note", NullLiteral)])], after, end) && end != tables
  {
    var statement := DeleteOne(ORDERS, [("note", NullLiteral)]);
    var after := Add(tables, ORDERS, OrderRow('2'));
    var end := Remove(after, ORDERS, OrderRow('1'));
    assert OrderRow('1') in after[ORDERS] && Matches(OrderRow('1'), statement.where);
    assert Outcome(statement, after, end);
    assert [statement][1..] == [] && RunsTo([], end, end);
    DigitIsNumber('1');
    DigitIsNumber('2');
    assert OrderRow('1')["id"] != OrderRow('2')["id"];
    assert OrderRow('2') in end[ORDERS] && OrderRow('2') !in tables[ORDERS];
  }

  /** Complete output over a partial image may delete another row that shows the same values. */
  lemma CompleteIsNotEnough(d: Decoders, transaction: Transaction)
    returns (steps: seq<Step>, tables: Tables, end: Tables)
    requires transaction.status.Committed? && transaction.changes == [MinimalInsert()]
    ensures Generate(d, transaction).complete
    ensures Account(d, steps, tables) && Events(steps) == RowEvents(transaction.changes)
    ensures RunsTo(Generate(d, transaction).statements, Final(d, steps, tables), end) && end != tables
  {
    hide MinimalInsert, OrderRow, RowEvents, Generate, Account, RunsTo, Final;
    steps, tables := [NOTE_STEP], map[ORDERS := multiset{OrderRow('1')}];
    end := Remove(Add(tables, ORDERS, OrderRow('2')), ORDERS, OrderRow('1'));
    MinimalInsertOutput(d, transaction);
    MinimalInsertAccount(d, tables);
    WrongRowDeleted(tables);
    assert Events(steps) == [NOTE_STEP.event];
  }
}
