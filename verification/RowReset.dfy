/** When one generated statement undoes its row change, whichever row LIMIT 1 picks. */
module RowReset {
  import opened Wrappers
  import opened Binlog
  import opened ResetSql
  import opened TableStates

  /** The images name every column of the row the reset has to find or rebuild. */
  ghost predicate FullImages(step: Step)
  {
    var change, row := step.event.change, step.event.row;
    match change.operation
    case Insert => row.after.Some? && forall c :: c in change.columns ==> IsSqlValue(row.after.value, c)
    case Update => row.before.Some? && forall c :: c in change.columns ==> IsSqlValue(row.before.value, c)
    case _ => true
  }

  /** Every row the statement may choose is the affected one, or an UPDATE that changed nothing is undone. */
  ghost predicate Unambiguous(statement: Statement, effect: Effect, tables: Tables)
    requires statement.table in tables
  {
    match statement
    case InsertRow(_, _) => true
    case DeleteOne(key, where) =>
      forall row :: row in tables[key] && Matches(row, where) ==> effect.Added? && row == effect.row
    case UpdateOne(key, set_, where) =>
      effect.Replaced? &&
      (effect.was == effect.now || forall row :: row in tables[key] && Matches(row, where) ==> row == effect.now)
  }

  ghost predicate Produced(d: Decoders, columns: seq<string>, image: Image, values: Assignments)
  {
    && (forall i :: 0 <= i < |values| ==>
          values[i].0 in columns && IsRecorded(image, values[i].0) && CellLiteral(d, image[values[i].0]) == Success(values[i].1))
    && (forall c :: c in columns && IsRecorded(image, c) ==> exists i :: 0 <= i < |values| && values[i].0 == c)
  }

  lemma {:induction false} ColumnValuesProduced(d: Decoders, columns: seq<string>, image: Image, requireComplete: bool)
    requires ColumnValues(d, columns, image, requireComplete).Success?
    ensures Produced(d, columns, image, ColumnValues(d, columns, image, requireComplete).value)
    ensures requireComplete ==> forall c :: c in columns ==> IsRecorded(image, c)
  {
    if columns != [] {
      var column, rest := columns[0], columns[1..];
      ColumnValuesProduced(d, rest, image, requireComplete);
      var values := ColumnValues(d, columns, image, requireComplete).value;
      var later := ColumnValues(d, rest, image, requireComplete).value;
      forall c | c in columns && IsRecorded(image, c)
        ensures exists i :: 0 <= i < |values| && values[i].0 == c
      {
        if c == column {
          assert values[0].0 == c;
        } else {
          assert c in rest;
          var i :| 0 <= i < |later| && later[i].0 == c;
          assert values[i + |values| - |later|].0 == c;
        }
      }
    }
  }

  /** A row agreeing with the produced pairs has exactly the values the image shows. */
  lemma ProducedMatches(d: Decoders, columns: seq<string>, image: Image, values: Assignments, row: Row)
    requires Produced(d, columns, image, values)
    requires Shows(d, image, row)
    ensures Matches(row, values)
  {
    hide CellLiteral, StoredIn, Denotes;
    forall i | 0 <= i < |values| ensures values[i].0 in row && row[values[i].0] == Denotes(values[i].1) {
      LiteralDenotesCell(d, image[values[i].0]);
    }
  }

  lemma {:induction false} AssignAt(row: Row, pairs: Assignments, target: Row, column: string)
    requires Matches(target, pairs)
    ensures var r := Assign(row, pairs);
            if exists i :: 0 <= i < |pairs| && pairs[i].0 == column
            then column in r && r[column] == target[column]
            else (column in r <==> column in row) && (column in row ==> r[column] == row[column])
  {
    if pairs != [] {
      var last, earlier := pairs[|pairs| - 1], pairs[..|pairs| - 1];
      assert forall i :: 0 <= i < |earlier| ==> pairs[i] == earlier[i];
      AssignAt(row, earlier, target, column);
      if last.0 != column && exists i :: 0 <= i < |pairs| && pairs[i].0 == column {
        var i :| 0 <= i < |pairs| && pairs[i].0 == column;
        assert earlier[i].0 == column;
      }
    }
  }

  /** Assigning pairs that name every column of `target` yields `target`. */
  lemma AssignAll(row: Row, pairs: Assignments, target: Row)
    requires Matches(target, pairs) && row.Keys <= target.Keys
    requires forall c :: c in target ==> exists i :: 0 <= i < |pairs| && pairs[i].0 == c
    ensures Assign(row, pairs) == target
  {
    var r := Assign(row, pairs);
    forall c ensures (c in r <==> c in target) && (c in target ==> r[c] == target[c]) {
      AssignAt(row, pairs, target, c);
    }
    assert r.Keys == target.Keys;
  }

  lemma SwapExactly(rows: multiset<Row>, x: Row, x': Row, y: Row, y': Row)
    requires x in rows && y in rows
    ensures rows - multiset{x} + multiset{x'} == rows - multiset{y} + multiset{y'} <==>
            (x == y && x' == y') || (x == x' && y == y')
  {
    var left, right := rows - multiset{x} + multiset{x'}, rows - multiset{y} + multiset{y'};
    if x == x' && y == y' {
      assert left == rows && right == rows;
    } else if !(x == y && x' == y') {
      assert left[x] != right[x] || left[y] != right[y] || left[x'] != right[x'] || left[y'] != right[y'];
    }
  }

  /** The current image of an UPDATE shows the row as it stands now. */
  lemma CurrentShowsNow(d: Decoders, step: Step)
    requires Recorded(d, step) && step.effect.Replaced?
    requires step.event.row.before.Some? && step.event.row.after.Some?
    requires !HasUnusableCell(step.event.row.before.value) && !HasUnusableCell(step.event.row.after.value)
    ensures Shows(d, Current(step.event.row.before.value, step.event.row.after.value), step.effect.now)
  {
  }

  /** The statement's predicate or values fit the rows of the effect it is to undo. */
  ghost predicate IsInverseOf(statement: Statement, effect: Effect)
  {
    match effect
    case Added(row) => statement.DeleteOne? && Matches(row, statement.where)
    case Removed(row) => statement.InsertRow? && Assign(map[], statement.values) == row
    case Replaced(was, now) => statement.UpdateOne? && UpdateFits(statement.set_, statement.where, was, now)
  }

  /** An UPDATE compiled from these rows: it turns the one into the other, and finds it by what it assigns at least. */
  ghost predicate UpdateFits(set_: Assignments, where: Assignments, was: Row, now: Row)
  {
    && Matches(now, where) && Matches(was, set_)
    && Assign(now, set_) == was
    && forall i :: 0 <= i < |set_| ==> NamesColumn(where, set_[i].0)
  }

  predicate NamesColumn(pairs: Assignments, column: string)
  {
    exists i :: 0 <= i < |pairs| && pairs[i].0 == column
  }

  lemma SetRestores(d: Decoders, step: Step, set_: Assignments)
    requires Recorded(d, step) && step.effect.Replaced?
    requires step.event.row.before.Some? && step.event.row.after.Some?
    requires BeforeCoversAfter(step.event.change.columns, step.event.row.before.value, step.event.row.after.value)
    requires Produced(d, step.event.change.columns, step.event.row.before.value, set_) && Matches(step.effect.was, set_)
    ensures Assign(step.effect.now, set_) == step.effect.was
  {
    var was, now := step.effect.was, step.effect.now;
    var r := Assign(now, set_);
    forall c ensures (c in r <==> c in was) && (c in was ==> r[c] == was[c]) {
      AssignAt(now, set_, was, c);
    }
    assert r.Keys == was.Keys;
  }

  lemma WhereNamesSet(d: Decoders, columns: seq<string>, before: Image, after: Image, set_: Assignments, where: Assignments)
    requires !HasUnusableCell(before)
    requires Produced(d, columns, before, set_) && Produced(d, columns, Current(before, after), where)
    ensures forall i :: 0 <= i < |set_| ==> NamesColumn(where, set_[i].0)
  {
    forall i | 0 <= i < |set_| ensures NamesColumn(where, set_[i].0) {
      var c := set_[i].0;
      assert IsSqlValue(before, c);
      assert IsRecorded(Current(before, after), c);
    }
  }

  /** The statement's predicate or values, read against the row they were compiled from. */
  lemma CompiledFor(d: Decoders, step: Step, statement: Statement)
    requires !step.event.change.operation.Ddl?
    requires ResetRow(d, step.event.change, step.event.row) == Success(statement)
    requires Recorded(d, step)
    ensures statement.table == step.Table()
    ensures IsInverseOf(statement, step.effect)
  {
    var change, row := step.event.change, step.event.row;
    match step.effect {
      case Added(new_) =>
        ColumnValuesProduced(d, change.columns, row.after.value, false);
        ProducedMatches(d, change.columns, row.after.value, statement.where, new_);
      case Removed(old_) =>
        ColumnValuesProduced(d, change.columns, row.before.value, true);
        ProducedMatches(d, change.columns, row.before.value, statement.values, old_);
        AssignAll(map[], statement.values, old_);
      case Replaced(was, now) =>
        var current := Current(row.before.value, row.after.value);
        ColumnValuesProduced(d, change.columns, row.before.value, false);
        ProducedMatches(d, change.columns, row.before.value, statement.set_, was);
        CurrentShowsNow(d, step);
        ColumnValuesProduced(d, change.columns, current, false);
        ProducedMatches(d, change.columns, current, statement.where, now);
        SetRestores(d, step, statement.set_);
        WhereNamesSet(d, change.columns, row.before.value, row.after.value, statement.set_, statement.where);
    }
  }

  lemma RemoveBack(before: Tables, key: TableKey, row: Row, other: Row)
    requires key in before && other in Add(before, key, row)[key]
    ensures Remove(Add(before, key, row), key, other) == before <==> other == row
  {
    var rows := before[key];
    UpdateTwice(before, key, rows + multiset{row}, rows + multiset{row} - multiset{other});
    if other == row {
      assert rows + multiset{row} - multiset{row} == rows;
    } else {
      assert (rows + multiset{row} - multiset{other})[row] == rows[row] + 1;
    }
  }

  lemma DeleteUndoesAdd(key: TableKey, where: Assignments, row: Row, before: Tables)
    requires key in before && Matches(row, where)
    ensures var statement, after := DeleteOne(key, where), Add(before, key, row);
            AlwaysYields(statement, after, before) <==> Unambiguous(statement, Added(row), after)
  {
    var after := Add(before, key, row);
    assert row in after[key];
    hide Add, Matches, Remove;
    DeleteOutcomes(key, where, row, after, before);
    forall other | other in after[key] && Matches(other, where)
      ensures Remove(after, key, other) == before <==> other == row
    {
      RemoveBack(before, key, row, other);
    }
    hide AlwaysYields;
  }

  /** With a matching row present, the outcomes of a DELETE are the removals of the matching rows. */
  lemma DeleteOutcomes(key: TableKey, where: Assignments, row: Row, tables: Tables, goal: Tables)
    requires key in tables && row in tables[key] && Matches(row, where)
    ensures AlwaysYields(DeleteOne(key, where), tables, goal) <==>
            forall other :: other in tables[key] && Matches(other, where) ==> Remove(tables, key, other) == goal
  {
    hide Matches, Remove;
    forall other | other in tables[key] && Matches(other, where)
      ensures Outcome(DeleteOne(key, where), tables, Remove(tables, key, other))
    {
    }
  }

  lemma InsertUndoesRemove(key: TableKey, values: Assignments, row: Row, before: Tables)
    requires key in before && row in before[key] && Assign(map[], values) == row
    ensures AlwaysYields(InsertRow(key, values), Remove(before, key, row), before)
  {
    assert before[key] - multiset{row} + multiset{row} == before[key];
  }

  lemma UpdateUndoesSwap(key: TableKey, set_: Assignments, where: Assignments, was: Row, now: Row, before: Tables)
    requires key in before && was in before[key] && UpdateFits(set_, where, was, now)
    ensures var statement, after := UpdateOne(key, set_, where), Swap(before, key, was, now);
            AlwaysYields(statement, after, before) <==> Unambiguous(statement, Replaced(was, now), after)
  {
    assert Matches(now, where);
    hide Swap, Matches, Gives, AlwaysYields, UpdateFits;
    InSwap(before, key, was, now);
    UpdateOutcomes(key, set_, where, now, Swap(before, key, was, now), before);
    GivesExactly(key, set_, where, was, now, before);
  }

  lemma GivesExactly(key: TableKey, set_: Assignments, where: Assignments, was: Row, now: Row, before: Tables)
    requires key in before && was in before[key] && UpdateFits(set_, where, was, now)
    requires key in Swap(before, key, was, now)
    ensures var after := Swap(before, key, was, now);
            (forall row :: row in after[key] && Matches(row, where) ==> Gives(after, key, set_, row, before)) <==>
            (was == now || forall row :: row in after[key] && Matches(row, where) ==> row == now)
  {
    hide Swap, Matches, Gives, LeadsBack, UpdateFits;
    var after := Swap(before, key, was, now);
    forall row | row in after[key] && Matches(row, where)
      ensures Gives(after, key, set_, row, before) <==> was == now || row == now
    {
      GivesBack(before, key, set_, was, now, row);
      LeadsBackExactly(set_, where, was, now, row);
    }
  }

  lemma GivesBack(before: Tables, key: TableKey, set_: Assignments, was: Row, now: Row, row: Row)
    requires key in before && was in before[key] && row in Swap(before, key, was, now)[key]
    ensures Gives(Swap(before, key, was, now), key, set_, row, before) <==> LeadsBack(set_, was, now, row)
  {
    SwapBack(before, key, was, now, row, Assign(row, set_));
  }

  lemma InSwap(tables: Tables, key: TableKey, was: Row, now: Row)
    requires key in tables
    ensures key in Swap(tables, key, was, now) && now in Swap(tables, key, was, now)[key]
  {
  }

  ghost predicate Gives(tables: Tables, key: TableKey, set_: Assignments, row: Row, goal: Tables)
    requires key in tables
  {
    Swap(tables, key, row, Assign(row, set_)) == goal
  }

  /** Choosing `row` leads back: it is the updated row and becomes the old one, or nothing changed at all. */
  ghost predicate LeadsBack(set_: Assignments, was: Row, now: Row, row: Row)
  {
    (row == now && Assign(row, set_) == was) || (Assign(row, set_) == row && was == now)
  }

  /** Rows that match all pairs are not changed by assigning them. */
  lemma AssignSame(row: Row, pairs: Assignments)
    requires Matches(row, pairs)
    ensures Assign(row, pairs) == row
  {
    var r := Assign(row, pairs);
    forall c ensures (c in r <==> c in row) && (c in row ==> r[c] == row[c]) {
      AssignAt(row, pairs, row, c);
    }
    assert r.Keys == row.Keys;
  }

  lemma LeadsBackExactly(set_: Assignments, where: Assignments, was: Row, now: Row, row: Row)
    requires UpdateFits(set_, where, was, now) && Matches(row, where)
    ensures LeadsBack(set_, was, now, row) <==> was == now || row == now
  {
    if was == now {
      forall i | 0 <= i < |set_| ensures set_[i].0 in row && row[set_[i].0] == Denotes(set_[i].1) {
        assert NamesColumn(where, set_[i].0);
      }
      AssignSame(row, set_);
    }
  }

  lemma SwapBackRows(rows: multiset<Row>, was: Row, now: Row, row: Row, new_: Row)
    requires was in rows && row in rows - multiset{was} + multiset{now}
    ensures rows - multiset{was} + multiset{now} - multiset{row} + multiset{new_} == rows <==>
            (row == now && new_ == was) || (new_ == row && was == now)
  {
    var after := rows - multiset{was} + multiset{now};
    assert after - multiset{now} + multiset{was} == rows;
    SwapExactly(after, row, new_, now, was);
  }

  lemma UpdateTwice(tables: Tables, key: TableKey, once: multiset<Row>, twice: multiset<Row>)
    requires key in tables
    ensures tables[key := once][key := twice] == tables <==> twice == tables[key]
  {
    if twice == tables[key] {
      assert tables[key := once][key := twice] == tables;
    } else {
      assert tables[key := once][key := twice][key] != tables[key];
    }
  }

  lemma SwapBack(before: Tables, key: TableKey, was: Row, now: Row, row: Row, new_: Row)
    requires key in before && was in before[key] && row in Swap(before, key, was, now)[key]
    ensures Swap(Swap(before, key, was, now), key, row, new_) == before <==>
            (row == now && new_ == was) || (new_ == row && was == now)
  {
    var once := before[key] - multiset{was} + multiset{now};
    SwapBackRows(before[key], was, now, row, new_);
    UpdateTwice(before, key, once, once - multiset{row} + multiset{new_});
  }

  /** With a matching row present, the outcomes of an UPDATE are the swaps of the matching rows. */
  lemma UpdateOutcomes(key: TableKey, set_: Assignments, where: Assignments, now: Row, tables: Tables, goal: Tables)
    requires key in tables && now in tables[key] && Matches(now, where)
    ensures AlwaysYields(UpdateOne(key, set_, where), tables, goal) <==>
            forall row :: row in tables[key] && Matches(row, where) ==> Gives(tables, key, set_, row, goal)
  {
    var statement := UpdateOne(key, set_, where);
    forall row | row in tables[key] && Matches(row, where)
      ensures Outcome(statement, tables, Swap(tables, key, row, Assign(row, set_)))
    {
    }
  }

  /** The exact condition: run right after its row change, a statement undoes it iff it is unambiguous. */
  lemma RowResetExactly(d: Decoders, step: Step, before: Tables, statement: Statement)
    requires !step.event.change.operation.Ddl?
    requires ResetRow(d, step.event.change, step.event.row) == Success(statement)
    requires Recorded(d, step) && Applicable(step, before)
    ensures statement.table in Apply(step, before)
    ensures AlwaysYields(statement, Apply(step, before), before) <==>
            Unambiguous(statement, step.effect, Apply(step, before))
  {
    CompiledFor(d, step, statement);
    var key := step.Table();
    match step.effect {
      case Added(new_) => DeleteUndoesAdd(key, statement.where, new_, before);
      case Removed(old_) => InsertUndoesRemove(key, statement.values, old_, before);
      case Replaced(was, now) => UpdateUndoesSwap(key, statement.set_, statement.where, was, now, before);
    }
  }

  // ----- the condition to be read off the output

  ghost predicate Names(change: Change, pairs: Assignments)
  {
    forall c :: c in change.columns ==> NamesColumn(pairs, c)
  }

  /** The predicate tests the column for the same value. */
  predicate TestsFor(where: Assignments, pair: (string, Literal))
  {
    exists i :: 0 <= i < |where| && where[i].0 == pair.0 && Denotes(where[i].1) == Denotes(pair.1)
  }

  /**
   The statement's own text settles it: an INSERT's or UPDATE's inverse names every column in its predicate,
   or an UPDATE's inverse assigns nothing but values it has just tested for.
   */
  ghost predicate Identifies(change: Change, statement: Statement)
  {
    match statement
    case InsertRow(_, _) => true
    case DeleteOne(_, where) => Names(change, where)
    case UpdateOne(_, set_, where) => Names(change, where) || forall pair :: pair in set_ ==> TestsFor(where, pair)
  }

  /** Whatever the table's other rows are, the statement undoes its row change. */
  ghost predicate AlwaysUndoes(step: Step, statement: Statement)
  {
    forall before: Tables :: Applicable(step, before) && Shaped(step.event.change, before) ==>
      AlwaysYields(statement, Apply(step, before), before)
  }

  lemma SameRow(change: Change, left: Row, right: Row, where: Assignments)
    requires left.Keys == right.Keys == Columns(change)
    requires Matches(left, where) && Matches(right, where)
    requires Names(change, where)
    ensures left == right
  {
    forall c | c in left ensures left[c] == right[c] {
      assert NamesColumn(where, c);
    }
  }

  lemma AllNamedIsOneRow(change: Change, tables: Tables, row: Row, where: Assignments)
    requires Shaped(change, tables) && row.Keys == Columns(change) && Names(change, where) && Matches(row, where)
    ensures forall other :: other in tables[Key(change)] && Matches(other, where) ==> other == row
  {
    forall other | other in tables[Key(change)] && Matches(other, where) ensures other == row {
      SameRow(change, other, row, where);
    }
  }

  /** An UPDATE changed nothing exactly when its inverse assigns only what it tests for. */
  lemma NothingChangedExactly(set_: Assignments, where: Assignments, was: Row, now: Row)
    requires UpdateFits(set_, where, was, now)
    ensures was == now <==> forall pair :: pair in set_ ==> TestsFor(where, pair)
  {
    hide Denotes;
    if was == now {
      forall pair | pair in set_ ensures TestsFor(where, pair) {
        var i :| 0 <= i < |set_| && set_[i] == pair;
        assert NamesColumn(where, set_[i].0);
      }
    } else if forall pair :: pair in set_ ==> TestsFor(where, pair) {
      forall i | 0 <= i < |set_| ensures set_[i].0 in now && now[set_[i].0] == Denotes(set_[i].1) {
        assert set_[i] in set_ && TestsFor(where, set_[i]);
      }
      AssignSame(now, set_);
    }
  }

  lemma IdentifiedIsUnambiguous(d: Decoders, step: Step, before: Tables, statement: Statement)
    requires !step.event.change.operation.Ddl?
    requires ResetRow(d, step.event.change, step.event.row) == Success(statement)
    requires Recorded(d, step) && Applicable(step, before) && Shaped(step.event.change, before)
    requires Identifies(step.event.change, statement)
    ensures statement.table in Apply(step, before)
    ensures Unambiguous(statement, step.effect, Apply(step, before))
  {
    CompiledFor(d, step, statement);
    var change, after := step.event.change, Apply(step, before);
    assert Shaped(change, after);
    match step.effect {
      case Removed(_) =>
      case Added(row) => AllNamedIsOneRow(change, after, row, statement.where);
      case Replaced(was, now) =>
        NothingChangedExactly(statement.set_, statement.where, was, now);
        if Names(change, statement.where) {
          AllNamedIsOneRow(change, after, now, statement.where);
        }
    }
  }

  /** A row that differs in one column. */
  function Lookalike(row: Row, column: string): (other: Row)
    requires column in row
    ensures other.Keys == row.Keys && other != row
  {
    var value := if row[column].NullStored? then TextStored("") else NullStored;
    assert row[column := value][column] != row[column];
    row[column := value]
  }

  lemma LookalikeMatches(row: Row, column: string, where: Assignments)
    requires column in row && Matches(row, where) && !NamesColumn(where, column)
    ensures Matches(Lookalike(row, column), where)
  {
    assert forall i :: 0 <= i < |where| ==> where[i].0 != column;
  }

  /** With a column unnamed, a table that holds a lookalike beside the affected row defeats the statement. */
  lemma UnidentifiedFails(d: Decoders, step: Step, statement: Statement, before: Tables, affected: Row, column: string)
    requires !step.event.change.operation.Ddl?
    requires ResetRow(d, step.event.change, step.event.row) == Success(statement)
    requires Recorded(d, step) && !statement.InsertRow? && Matches(affected, statement.where)
    requires step.effect == Added(affected) || (step.effect.Replaced? && step.effect.now == affected && step.effect.was != affected)
    requires column in affected && !NamesColumn(statement.where, column)
    requires Applicable(step, before) && Shaped(step.event.change, before)
    requires statement.table == step.Table() && Lookalike(affected, column) in Apply(step, before)[step.Table()]
    ensures !AlwaysUndoes(step, statement)
  {
    RowResetExactly(d, step, before, statement);
    LookalikeMatches(affected, column, statement.where);
    var other := Lookalike(affected, column);
    assert other in Apply(step, before)[statement.table] && Matches(other, statement.where) && other != affected;
    assert !Unambiguous(statement, step.effect, Apply(step, before));
  }

  lemma UnidentifiedInsert(d: Decoders, step: Step, statement: Statement, column: string)
    requires step.effect.Added? && !step.event.change.operation.Ddl?
    requires ResetRow(d, step.event.change, step.event.row) == Success(statement) && Recorded(d, step)
    requires statement.DeleteOne? && column in step.event.change.columns && !NamesColumn(statement.where, column)
    ensures !AlwaysUndoes(step, statement)
  {
    CompiledFor(d, step, statement);
    hide ResetRow, Matches, NamesColumn, Recorded;
    var row, key := step.effect.row, step.Table();
    assert row.Keys == Columns(step.event.change) by {
      RecordedKeys(d, step);
    }
    var before: Tables := map[key := multiset{Lookalike(row, column)}];
    UnidentifiedFails(d, step, statement, before, row, column);
  }

  lemma RecordedKeys(d: Decoders, step: Step)
    requires Recorded(d, step)
    ensures step.effect.Added? ==> step.effect.row.Keys == Columns(step.event.change)
    ensures step.effect.Replaced? ==> step.effect.was.Keys == step.effect.now.Keys == Columns(step.event.change)
  {
  }

  lemma UnidentifiedUpdate(d: Decoders, step: Step, statement: Statement, column: string)
    requires step.effect.Replaced? && step.effect.was != step.effect.now && !step.event.change.operation.Ddl?
    requires ResetRow(d, step.event.change, step.event.row) == Success(statement) && Recorded(d, step)
    requires statement.UpdateOne? && column in step.event.change.columns && !NamesColumn(statement.where, column)
    ensures !AlwaysUndoes(step, statement)
  {
    CompiledFor(d, step, statement);
    hide ResetRow, Matches, NamesColumn, Recorded;
    var was, now, key := step.effect.was, step.effect.now, step.Table();
    RecordedKeys(d, step);
    var other := Lookalike(now, column);
    var before: Tables := map[key := multiset{was, other}];
    assert before[key] - multiset{was} + multiset{now} == multiset{other, now};
    UnidentifiedFails(d, step, statement, before, now, column);
  }

  /** The exact condition to be read off the output: a statement always undoes its row change iff it identifies it. */
  lemma IdentifiedExactly(d: Decoders, step: Step, statement: Statement)
    requires !step.event.change.operation.Ddl?
    requires ResetRow(d, step.event.change, step.event.row) == Success(statement)
    requires Recorded(d, step)
    ensures AlwaysUndoes(step, statement) <==> Identifies(step.event.change, statement)
  {
    hide ResetRow, Recorded, Unambiguous, Applicable, Apply, Shaped, AlwaysYields;
    CompiledFor(d, step, statement);
    if Identifies(step.event.change, statement) {
      forall before: Tables | Applicable(step, before) && Shaped(step.event.change, before)
        ensures AlwaysYields(statement, Apply(step, before), before)
      {
        IdentifiedIsUnambiguous(d, step, before, statement);
        RowResetExactly(d, step, before, statement);
      }
    } else if statement.DeleteOne? {
      var column :| column in step.event.change.columns && !NamesColumn(statement.where, column);
      UnidentifiedInsert(d, step, statement, column);
    } else {
      NothingChangedExactly(statement.set_, statement.where, step.effect.was, step.effect.now);
      var column :| column in step.event.change.columns && !NamesColumn(statement.where, column);
      UnidentifiedUpdate(d, step, statement, column);
    }
  }

  /** With full images, the compiled pairs name every column. */
  lemma FullImagesIdentify(d: Decoders, step: Step, statement: Statement)
    requires !step.event.change.operation.Ddl?
    requires ResetRow(d, step.event.change, step.event.row) == Success(statement)
    requires FullImages(step)
    ensures Identifies(step.event.change, statement)
  {
    var change, row := step.event.change, step.event.row;
    if statement.DeleteOne? {
      ColumnValuesProduced(d, change.columns, row.after.value, false);
    } else if statement.UpdateOne? {
      ColumnValuesProduced(d, change.columns, Current(row.before.value, row.after.value), false);
    }
  }
}
