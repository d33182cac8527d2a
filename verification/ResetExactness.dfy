/**
 When a complete output undoes its transaction whatever else the tables hold: exactly when every statement
 identifies its row, which can be read off the output or off the images.
 */
module ResetExactness {
  import opened Wrappers
  import opened Binlog
  import opened ResetSql
  import opened TableStates
  import opened RowReset
  import opened ResetMeaning

  // ----- values that occur nowhere in a transaction

  function ValuesOf(effect: Effect): set<Stored>
  {
    match effect
    case Added(row) => row.Values
    case Removed(row) => row.Values
    case Replaced(was, now) => was.Values + now.Values
  }

  function ValuesIn(steps: seq<Step>): set<Stored>
  {
    if steps == [] then {} else ValuesIn(steps[..|steps| - 1]) + ValuesOf(steps[|steps| - 1].effect)
  }

  function Width(value: Stored): nat { if value.TextStored? then |value.text| else 0 }

  lemma {:induction false} Bounded(values: set<Stored>) returns (bound: nat)
    ensures forall v :: v in values ==> Width(v) <= bound
    decreases values
  {
    if values == {} {
      bound := 0;
    } else {
      var v :| v in values;
      var rest := Bounded(values - {v});
      bound := rest + Width(v);
    }
  }

  lemma FreshValue(values: set<Stored>) returns (fresh_: Stored)
    ensures fresh_ !in values
  {
    var bound := Bounded(values);
    fresh_ := TextStored(seq(bound + 1, _ => 'x'));
    assert Width(fresh_) == bound + 1;
  }

  lemma {:induction false} ValuesAt(steps: seq<Step>, i: nat)
    requires i < |steps|
    ensures ValuesOf(steps[i].effect) <= ValuesIn(steps)
  {
    if i < |steps| - 1 {
      ValuesAt(steps[..|steps| - 1], i);
    }
  }

  // ----- one more row in a table

  /** All changes of a table name the same columns. */
  predicate HasColumns(steps: seq<Step>, key: TableKey, columns: set<string>)
  {
    forall i :: 0 <= i < |steps| && steps[i].Table() == key ==> Columns(steps[i].event.change) == columns
  }

  predicate SameColumns(steps: seq<Step>)
  {
    forall i :: 0 <= i < |steps| ==> HasColumns(steps, steps[i].Table(), Columns(steps[i].event.change))
  }

  /** Writes to two tables commute, and of two to the same one the later counts. */
  lemma WritesCommute(tables: Tables, a: TableKey, x: multiset<Row>, b: TableKey, y: multiset<Row>)
    ensures a != b ==> tables[a := x][b := y] == tables[b := y][a := x]
    ensures tables[a := x][a := y] == tables[a := y]
  {
  }

  lemma RowsBeside(effect: Effect, rows: multiset<Row>, other: Row)
    requires effect.Removed? ==> effect.row in rows
    requires effect.Replaced? ==> effect.was in rows
    ensures RowsAfter(effect, rows + multiset{other}) == RowsAfter(effect, rows) + multiset{other}
  {
    match effect {
      case Added(row) => assert rows + multiset{other} + multiset{row} == rows + multiset{row} + multiset{other};
      case Removed(row) => RemovedBeside(rows, row, other);
      case Replaced(was, now) =>
        RemovedBeside(rows, was, other);
        var left := rows - multiset{was};
        assert left + multiset{other} + multiset{now} == left + multiset{now} + multiset{other};
    }
  }

  lemma RemovedBeside(rows: multiset<Row>, row: Row, other: Row)
    requires row in rows
    ensures rows + multiset{other} - multiset{row} == rows - multiset{row} + multiset{other}
  {
  }

  lemma StepBeside(step: Step, tables: Tables, key: TableKey, other: Row)
    requires key in tables && Applicable(step, tables)
    ensures key in Apply(step, tables)
    ensures Applicable(step, Add(tables, key, other))
    ensures Apply(step, Add(tables, key, other)) == Add(Apply(step, tables), key, other)
  {
    var table, with_ := step.Table(), Add(tables, key, other);
    var rows, more := tables[table], tables[key] + multiset{other};
    assert Applicable(step, with_);
    hide Apply, RowsAfter;
    ApplyIsWrite(step, tables);
    ApplyIsWrite(step, with_);
    WritesCommute(tables, key, more, table, RowsAfter(step.effect, rows));
    if table == key {
      assert with_[table] == more;
      RowsBeside(step.effect, rows, other);
      WritesCommute(tables, key, more, key, RowsAfter(step.effect, more));
      WritesCommute(tables, key, RowsAfter(step.effect, rows), key, RowsAfter(step.effect, more));
    }
  }

  lemma ShapedBeside(change: Change, tables: Tables, key: TableKey, other: Row)
    requires key in tables && Shaped(change, tables) && (Key(change) == key ==> other.Keys == Columns(change))
    ensures Shaped(change, Add(tables, key, other))
  {
  }

  lemma {:induction false} AccountBeside(d: Decoders, steps: seq<Step>, tables: Tables, key: TableKey, other: Row)
    requires Account(d, steps, tables) && key in tables && HasColumns(steps, key, other.Keys)
    ensures Account(d, steps, Add(tables, key, other)) && key in Final(d, steps, tables)
    ensures Final(d, steps, Add(tables, key, other)) == Add(Final(d, steps, tables), key, other)
  {
    hide Add, Recorded, Shaped, Applicable, Apply;
    if steps != [] {
      var last, earlier := steps[|steps| - 1], steps[..|steps| - 1];
      Peeled(d, steps, tables);
      assert forall i :: 0 <= i < |earlier| ==> earlier[i] == steps[i];
      AccountBeside(d, earlier, tables, key, other);
      var middle := Final(d, earlier, tables);
      StepBeside(last, middle, key, other);
      ShapedBeside(last.event.change, middle, key, other);
      Appended(d, earlier, last, Add(tables, key, other));
      assert earlier + [last] == steps;
    } else {
      assert key in tables;
    }
  }

  // ----- the right choice, and the wrong one

  /** Choosing the affected row leads back. */
  lemma RightChoice(d: Decoders, step: Step, before: Tables, statement: Statement)
    requires !step.event.change.operation.Ddl?
    requires ResetRow(d, step.event.change, step.event.row) == Success(statement)
    requires Recorded(d, step) && Applicable(step, before)
    ensures Outcome(statement, Apply(step, before), before)
  {
    CompiledFor(d, step, statement);
    hide ResetRow, Recorded, Matches, Outcome, Add, Remove, Swap;
    match step.effect {
      case Added(row) => RightDelete(before, step.Table(), statement, row);
      case Removed(row) => RightInsert(before, step.Table(), statement, row);
      case Replaced(was, now) => RightUpdate(before, step.Table(), statement, was, now);
    }
  }

  lemma RightDelete(before: Tables, key: TableKey, statement: Statement, row: Row)
    requires key in before && statement.table == key && IsInverseOf(statement, Added(row))
    ensures Outcome(statement, Add(before, key, row), before)
  {
    assert row in Add(before, key, row)[key];
    RemoveBack(before, key, row, row);
  }

  lemma RightInsert(before: Tables, key: TableKey, statement: Statement, row: Row)
    requires key in before && row in before[key] && statement.table == key && IsInverseOf(statement, Removed(row))
    ensures Outcome(statement, Remove(before, key, row), before)
  {
    assert before[key] - multiset{row} + multiset{row} == before[key];
  }

  lemma RightUpdate(before: Tables, key: TableKey, statement: Statement, was: Row, now: Row)
    requires key in before && was in before[key] && statement.table == key && IsInverseOf(statement, Replaced(was, now))
    ensures Outcome(statement, Swap(before, key, was, now), before)
  {
    hide Swap, Matches;
    InSwap(before, key, was, now);
    SwapBack(before, key, was, now, now, was);
  }

  /** A row like the affected one but for a value of its own in an unnamed column. */
  predicate IsLookalike(affected: Row, other: Row, column: string, fresh_: Stored)
  {
    column in affected && other == affected[column := fresh_]
  }

  lemma LookalikeFits(affected: Row, other: Row, column: string, fresh_: Stored, pairs: Assignments)
    requires IsLookalike(affected, other, column, fresh_) && !NamesColumn(pairs, column)
    ensures Matches(affected, pairs) <==> Matches(other, pairs)
  {
    assert forall i :: 0 <= i < |pairs| ==> pairs[i].0 != column;
  }

  /** The affected row of an INSERT or an UPDATE. */
  function Affected(effect: Effect): Row
    requires !effect.Removed?
  {
    if effect.Added? then effect.row else effect.now
  }

  ghost predicate IsDefeated(step: Step, statement: Statement, column: string)
  {
    && !step.effect.Removed? && !statement.InsertRow?
    && (step.effect.Replaced? ==> step.effect.was != step.effect.now)
    && column in step.event.change.columns && !NamesColumn(statement.where, column)
  }

  lemma UnidentifiedIsDefeated(d: Decoders, step: Step, statement: Statement) returns (column: string)
    requires !step.event.change.operation.Ddl? && Recorded(d, step)
    requires ResetRow(d, step.event.change, step.event.row) == Success(statement)
    requires !Identifies(step.event.change, statement)
    ensures IsDefeated(step, statement, column)
  {
    CompiledFor(d, step, statement);
    hide ResetRow, Recorded, Matches;
    if statement.UpdateOne? {
      NothingChangedExactly(statement.set_, statement.where, step.effect.was, step.effect.now);
    }
    column :| column in step.event.change.columns && !NamesColumn(statement.where, column);
  }

  /** Assigning to the lookalike changes it, since it changes the affected row. */
  lemma LookalikeChanges(set_: Assignments, where: Assignments, was: Row, now: Row, other: Row, column: string, fresh_: Stored)
    requires UpdateFits(set_, where, was, now) && was != now
    requires IsLookalike(now, other, column, fresh_) && !NamesColumn(where, column)
    ensures Assign(other, set_) != other
  {
    assert !NamesColumn(set_, column);
    if Assign(other, set_) == other {
      forall i | 0 <= i < |set_| ensures set_[i].0 in other && other[set_[i].0] == Denotes(set_[i].1) {
        AssignAt(other, set_, was, set_[i].0);
      }
      LookalikeFits(now, other, column, fresh_, set_);
      AssignSame(now, set_);
    }
  }

  /** Choosing the lookalike takes it away. */
  lemma WrongChoice(
    d: Decoders, step: Step, before: Tables, statement: Statement, other: Row, column: string, fresh_: Stored)
    returns (middle: Tables)
    requires !step.event.change.operation.Ddl?
    requires ResetRow(d, step.event.change, step.event.row) == Success(statement)
    requires Recorded(d, step) && Applicable(step, before) && IsDefeated(step, statement, column)
    requires IsLookalike(Affected(step.effect), other, column, fresh_) && other in before[step.Table()]
    requires fresh_ !in ValuesOf(step.effect)
    ensures Outcome(statement, Apply(step, before), middle)
    ensures middle.Keys == before.Keys && middle[step.Table()][other] < before[step.Table()][other]
  {
    CompiledFor(d, step, statement);
    hide ResetRow, Recorded, Matches, Outcome, Swap, Remove, UpdateFits, NamesColumn;
    var key, after, affected := step.Table(), Apply(step, before), Affected(step.effect);
    FitsAffected(statement, step.effect);
    LookalikeFits(affected, other, column, fresh_, statement.where);
    LookalikeStays(step, before, key, other, column, fresh_);
    ApplyIsWrite(step, before);
    match step.effect {
      case Added(row) =>
        middle := TakeAway(key, statement.where, after, other);
      case Replaced(was, now) =>
        LookalikeChanges(statement.set_, statement.where, was, now, other, column, fresh_);
        middle := SwapAway(key, statement.set_, statement.where, after, other);
    }
  }

  lemma FitsAffected(statement: Statement, effect: Effect)
    requires IsInverseOf(statement, effect) && !effect.Removed?
    ensures Matches(Affected(effect), statement.where)
  {
  }

  lemma TakeAway(key: TableKey, where: Assignments, tables: Tables, other: Row) returns (middle: Tables)
    requires key in tables && other in tables[key] && Matches(other, where)
    ensures Outcome(DeleteOne(key, where), tables, middle)
    ensures middle.Keys == tables.Keys && middle[key][other] < tables[key][other]
  {
    middle := Remove(tables, key, other);
  }

  lemma SwapAway(key: TableKey, set_: Assignments, where: Assignments, tables: Tables, other: Row) returns (middle: Tables)
    requires key in tables && other in tables[key] && Matches(other, where) && Assign(other, set_) != other
    ensures Outcome(UpdateOne(key, set_, where), tables, middle)
    ensures middle.Keys == tables.Keys && middle[key][other] < tables[key][other]
  {
    middle := Swap(tables, key, other, Assign(other, set_));
  }

  lemma LacksFresh(row: Row, other: Row, column: string, fresh_: Stored)
    requires fresh_ !in row.Values && column in other && other[column] == fresh_
    ensures row != other
  {
    assert column in row ==> row[column] in row.Values;
  }

  // ----- identified statements never make the lookalike

  /** The pairs compiled from a row denote its values. */
  lemma PairsLackFresh(row: Row, pairs: Assignments, fresh_: Stored)
    requires Matches(row, pairs) && fresh_ !in row.Values
    ensures forall i :: 0 <= i < |pairs| ==> Denotes(pairs[i].1) != fresh_
  {
    hide Denotes;
    forall i | 0 <= i < |pairs| ensures Denotes(pairs[i].1) != fresh_ {
      assert row[pairs[i].0] in row.Values;
    }
  }

  /** An identified UPDATE either leaves the chosen row alone or makes one without the fresh value. */
  lemma UpdateMakesNoLookalike(
    change: Change, set_: Assignments, where: Assignments, was: Row, now: Row, row: Row, other: Row, column: string,
    fresh_: Stored)
    requires UpdateFits(set_, where, was, now) && Identifies(change, UpdateOne(Key(change), set_, where))
    requires Matches(row, where) && column in change.columns && column in other && other[column] == fresh_
    requires fresh_ !in was.Values && fresh_ !in now.Values
    ensures Assign(row, set_) == row || Assign(row, set_) != other
  {
    if Names(change, where) {
      PairsLackFresh(now, where, fresh_);
      PairsLackFresh(was, set_, fresh_);
      var i: nat :| i < |where| && where[i].0 == column;
      assert row[column] == Denotes(where[i].1);
      AssignAt(row, set_, was, column);
      if NamesColumn(set_, column) {
        assert was[column] in was.Values;
      }
    } else {
      forall i | 0 <= i < |set_| ensures set_[i].0 in row && row[set_[i].0] == Denotes(set_[i].1) {
        assert set_[i] in set_ && TestsFor(where, set_[i]);
      }
      AssignSame(row, set_);
    }
  }

  /** Some outcome of an identified statement, with no more lookalikes than before. */
  lemma IdentifiedStep(
    d: Decoders, step: Step, statement: Statement, start: Tables, key: TableKey, other: Row, column: string,
    fresh_: Stored)
    returns (end: Tables)
    requires !step.event.change.operation.Ddl? && Recorded(d, step)
    requires ResetRow(d, step.event.change, step.event.row) == Success(statement)
    requires Identifies(step.event.change, statement)
    requires step.Table() in start && key in start
    requires step.Table() == key ==> column in step.event.change.columns
    requires column in other && other[column] == fresh_ && fresh_ !in ValuesOf(step.effect)
    ensures Outcome(statement, start, end) && end.Keys == start.Keys && end[key][other] <= start[key][other]
  {
    CompiledFor(d, step, statement);
    hide ResetRow, Recorded, Matches, Identifies, UpdateFits, Outcome;
    match step.effect {
      case Removed(row) =>
        LacksFresh(row, other, column, fresh_);
        end := InsertedOnce(statement, start, key, other);
      case Added(_) =>
        end := DeletedOnce(statement, start, key, other);
      case Replaced(was, now) =>
        if key == step.Table() {
          forall row | Matches(row, statement.where)
            ensures Assign(row, statement.set_) == row || Assign(row, statement.set_) != other
          {
            UpdateMakesNoLookalike(
              step.event.change, statement.set_, statement.where, was, now, row, other, column, fresh_);
          }
        }
        end := UpdatedOnce(statement, start, key, other);
    }
  }

  lemma InsertedOnce(statement: Statement, start: Tables, key: TableKey, other: Row) returns (end: Tables)
    requires statement.InsertRow? && statement.table in start && key in start && Assign(map[], statement.values) != other
    ensures Outcome(statement, start, end) && end.Keys == start.Keys && end[key][other] <= start[key][other]
  {
    end := Add(start, statement.table, Assign(map[], statement.values));
  }

  lemma DeletedOnce(statement: Statement, start: Tables, key: TableKey, other: Row) returns (end: Tables)
    requires statement.DeleteOne? && statement.table in start && key in start
    ensures Outcome(statement, start, end) && end.Keys == start.Keys && end[key][other] <= start[key][other]
  {
    hide Matches;
    end := start;
    if !NoMatch(start, statement.table, statement.where) {
      var row :| row in start[statement.table] && Matches(row, statement.where);
      end := Remove(start, statement.table, row);
    }
  }

  lemma UpdatedOnce(statement: Statement, start: Tables, key: TableKey, other: Row) returns (end: Tables)
    requires statement.UpdateOne? && statement.table in start && key in start
    requires key == statement.table ==> forall row :: Matches(row, statement.where) ==>
               Assign(row, statement.set_) == row || Assign(row, statement.set_) != other
    ensures Outcome(statement, start, end) && end.Keys == start.Keys && end[key][other] <= start[key][other]
  {
    hide Matches, Assign;
    end := start;
    if !NoMatch(start, statement.table, statement.where) {
      var row :| row in start[statement.table] && Matches(row, statement.where);
      end := Swap(start, statement.table, row, Assign(row, statement.set_));
    }
  }

  ghost predicate AllIdentified(d: Decoders, steps: seq<Step>)
  {
    forall i :: 0 <= i < |steps| ==> IsIdentified(d, steps[i])
  }

  ghost predicate AllRecorded(d: Decoders, steps: seq<Step>)
  {
    forall i :: 0 <= i < |steps| ==> Recorded(d, steps[i])
  }

  lemma {:induction false} AccountIsRecorded(d: Decoders, steps: seq<Step>, tables: Tables)
    requires Account(d, steps, tables)
    ensures AllRecorded(d, steps)
  {
    hide Recorded, Shaped, Applicable, Apply;
    if steps != [] {
      AccountIsRecorded(d, steps[..|steps| - 1], tables);
      Peeled(d, steps, tables);
      forall i | 0 <= i < |steps| ensures Recorded(d, steps[i]) {
        assert i < |steps| - 1 ==> steps[..|steps| - 1][i] == steps[i];
      }
    }
  }

  /** The column and its value set the lookalike apart from all that the steps know. */
  ghost predicate IsForeign(steps: seq<Step>, key: TableKey, other: Row, column: string, fresh_: Stored)
  {
    && column in other && other[column] == fresh_ && fresh_ !in ValuesIn(steps)
    && HasColumns(steps, key, other.Keys)
  }

  lemma ForeignEarlier(steps: seq<Step>, key: TableKey, other: Row, column: string, fresh_: Stored)
    requires steps != [] && IsForeign(steps, key, other, column, fresh_)
    ensures IsForeign(steps[..|steps| - 1], key, other, column, fresh_)
    ensures var last := steps[|steps| - 1];
            fresh_ !in ValuesOf(last.effect) && (last.Table() == key ==> Columns(last.event.change) == other.Keys)
  {
    var earlier := steps[..|steps| - 1];
    assert forall i :: 0 <= i < |earlier| ==> earlier[i] == steps[i];
  }

  /** Inverses of identified steps run from any state with their tables, and never make the lookalike. */
  lemma {:induction false} IdentifiedRun(
    d: Decoders, steps: seq<Step>, start: Tables, key: TableKey, other: Row, column: string, fresh_: Stored)
    returns (end: Tables)
    requires AllRecorded(d, steps) && AllReversible(d, Events(steps)) && AllIdentified(d, steps)
    requires key in start && forall i :: 0 <= i < |steps| ==> steps[i].Table() in start
    requires IsForeign(steps, key, other, column, fresh_)
    ensures RunsTo(Inverses(d, Events(steps)), start, end) && key in end && end[key][other] <= start[key][other]
  {
    end := start;
    if steps != [] {
      hide Outcome, Identifies, Recorded, IsForeign, ResetRow, Inverses;
      var last, earlier := steps[|steps| - 1], steps[..|steps| - 1];
      LastInverse(d, steps);
      ForeignEarlier(steps, key, other, column, fresh_);
      ForeignHas(steps, key, other, column, fresh_);
      var statement := ResetRow(d, last.event.change, last.event.row).value;
      assert IsIdentified(d, last);
      var middle := IdentifiedStep(d, last, statement, start, key, other, column, fresh_);
      assert forall i :: 0 <= i < |earlier| ==> earlier[i] == steps[i];
      end := IdentifiedRun(d, earlier, middle, key, other, column, fresh_);
      RunsInFront(statement, Inverses(d, Events(earlier)), start, middle, end);
    } else {
      assert Inverses(d, Events(steps)) == [];
    }
  }

  lemma ForeignHas(steps: seq<Step>, key: TableKey, other: Row, column: string, fresh_: Stored)
    requires IsForeign(steps, key, other, column, fresh_)
    ensures column in other && other[column] == fresh_
  {
  }

  lemma RunsInFront(statement: Statement, rest: seq<Statement>, start: Tables, middle: Tables, end: Tables)
    requires Outcome(statement, start, middle) && RunsTo(rest, middle, end)
    ensures RunsTo([statement] + rest, start, end)
  {
    hide Outcome;
    var all := [statement] + rest;
    assert all[0] == statement && all[1..] == rest;
  }

  // ----- a run that goes wrong at one step

  /** Rightly down to step `i`, wrongly there, and anyhow from then on. */
  lemma {:induction false} WrongRun(
    d: Decoders, steps: seq<Step>, tables: Tables, i: nat, other: Row, column: string, fresh_: Stored)
    returns (end: Tables)
    requires i < |steps| && Account(d, steps, tables) && AllReversible(d, Events(steps))
    requires AllIdentified(d, steps[..i]) && Reversible(d, steps[i].event)
    requires IsDefeated(steps[i], ResetRow(d, steps[i].event.change, steps[i].event.row).value, column)
    requires IsLookalike(Affected(steps[i].effect), other, column, fresh_)
    requires IsForeign(steps, steps[i].Table(), other, column, fresh_)
    requires steps[i].Table() in tables && other in tables[steps[i].Table()]
    ensures RunsTo(Inverses(d, Events(steps)), Final(d, steps, tables), end) && end != tables
    decreases |steps|
  {
    hide Outcome, Identifies, Recorded, IsForeign, ResetRow, Inverses, IsDefeated, IsLookalike, Applicable, Apply, Shaped, AllIdentified;
    var key, last, earlier := steps[i].Table(), steps[|steps| - 1], steps[..|steps| - 1];
    LastInverse(d, steps);
    Peeled(d, steps, tables);
    ForeignEarlier(steps, key, other, column, fresh_);
    var statement, before := ResetRow(d, last.event.change, last.event.row).value, Final(d, earlier, tables);
    if i < |steps| - 1 {
      RightChoice(d, last, before, statement);
      assert earlier[..i] == steps[..i];
      end := WrongRun(d, earlier, tables, i, other, column, fresh_);
      RunsInFront(statement, Inverses(d, Events(earlier)), Final(d, steps, tables), before, end);
    } else {
      end := WrongFromHere(d, earlier, last, statement, tables, other, column, fresh_);
      assert earlier + [last] == steps;
    }
  }

  /** The lookalikes the tables began with are still there. */
  lemma {:induction false} LookalikesStay(
    d: Decoders, steps: seq<Step>, tables: Tables, key: TableKey, other: Row, column: string, fresh_: Stored)
    requires Account(d, steps, tables) && key in tables && IsForeign(steps, key, other, column, fresh_)
    ensures key in Final(d, steps, tables) && Final(d, steps, tables)[key][other] == tables[key][other]
  {
    if steps != [] {
      hide Recorded, Shaped, IsForeign;
      var last, earlier := steps[|steps| - 1], steps[..|steps| - 1];
      Peeled(d, steps, tables);
      ForeignEarlier(steps, key, other, column, fresh_);
      ForeignHas(steps, key, other, column, fresh_);
      LookalikesStay(d, earlier, tables, key, other, column, fresh_);
      LookalikeStays(last, Final(d, earlier, tables), key, other, column, fresh_);
    }
  }

  lemma LookalikeStays(step: Step, tables: Tables, key: TableKey, other: Row, column: string, fresh_: Stored)
    requires Applicable(step, tables) && key in tables
    requires column in other && other[column] == fresh_ && fresh_ !in ValuesOf(step.effect)
    ensures key in Apply(step, tables) && Apply(step, tables)[key][other] == tables[key][other]
  {
    match step.effect {
      case Added(row) => LacksFresh(row, other, column, fresh_);
      case Removed(row) => LacksFresh(row, other, column, fresh_);
      case Replaced(was, now) =>
        LacksFresh(was, other, column, fresh_);
        LacksFresh(now, other, column, fresh_);
    }
  }

  lemma WrongFromHere(
    d: Decoders, earlier: seq<Step>, last: Step, statement: Statement, tables: Tables, other: Row, column: string,
    fresh_: Stored)
    returns (end: Tables)
    requires Account(d, earlier, tables) && AllReversible(d, Events(earlier)) && AllIdentified(d, earlier)
    requires Applicable(last, Final(d, earlier, tables)) && Recorded(d, last)
    requires !last.event.change.operation.Ddl?
    requires ResetRow(d, last.event.change, last.event.row) == Success(statement)
    requires IsDefeated(last, statement, column) && IsLookalike(Affected(last.effect), other, column, fresh_)
    requires IsForeign(earlier, last.Table(), other, column, fresh_) && fresh_ !in ValuesOf(last.effect)
    requires last.Table() in tables && other in tables[last.Table()]
    ensures RunsTo([statement] + Inverses(d, Events(earlier)), Apply(last, Final(d, earlier, tables)), end) && end != tables
  {
    hide Outcome, Identifies, Recorded, IsForeign, ResetRow, Inverses, IsDefeated, IsLookalike, Applicable, Apply, Shaped, AllIdentified, Final, Account, Affected;
    var before := Final(d, earlier, tables);
    FinalKeys(d, earlier, tables);
    forall i | 0 <= i < |earlier| ensures earlier[i].Table() in tables {
      TablesExist(d, earlier, tables, i);
    }
    AccountIsRecorded(d, earlier, tables);
    LookalikesStay(d, earlier, tables, last.Table(), other, column, fresh_);
    var middle := WrongChoice(d, last, before, statement, other, column, fresh_);
    end := IdentifiedRun(d, earlier, middle, last.Table(), other, column, fresh_);
    RunsInFront(statement, Inverses(d, Events(earlier)), Apply(last, before), middle, end);
  }

  // ----- the exact condition for the whole output

  /** In every execution, and over all tables the transaction can be accounted for. */
  ghost predicate AlwaysRestores(d: Decoders, steps: seq<Step>, statements: seq<Statement>)
  {
    forall tables, end ::
      Account(d, steps, tables) && RunsTo(statements, Final(d, steps, tables), end) ==> end == tables
  }

  lemma FirstUnidentified(d: Decoders, steps: seq<Step>) returns (i: nat)
    requires !AllIdentified(d, steps)
    ensures i < |steps| && !IsIdentified(d, steps[i]) && AllIdentified(d, steps[..i])
  {
    hide IsIdentified;
    i := 0;
    while IsIdentified(d, steps[i])
      invariant i < |steps| && forall j :: 0 <= j < i ==> IsIdentified(d, steps[j])
      decreases |steps| - i
    {
      i := i + 1;
    }
    assert forall j :: 0 <= j < i ==> steps[..i][j] == steps[j];
  }

  lemma ReversibleAt(d: Decoders, steps: seq<Step>, i: nat)
    requires i < |steps| && AllReversible(d, Events(steps))
    ensures Reversible(d, steps[i].event)
  {
    assert Events(steps)[i] == steps[i].event;
  }

  lemma UnidentifiedIsNotEnough(d: Decoders, steps: seq<Step>, tables: Tables)
    requires Account(d, steps, tables) && AllReversible(d, Events(steps)) && SameColumns(steps)
    requires !AllIdentified(d, steps)
    ensures !AlwaysRestores(d, steps, Inverses(d, Events(steps)))
  {
    hide Identifies, Recorded, ResetRow, Inverses, IsDefeated, Applicable, Apply, Shaped, Account, Final, RunsTo, HasColumns;
    var i := FirstUnidentified(d, steps);
    ReversibleAt(d, steps, i);
    AccountIsRecorded(d, steps, tables);
    TablesExist(d, steps, tables, i);
    var step, key := steps[i], steps[i].Table();
    var statement := ResetRow(d, step.event.change, step.event.row).value;
    var column := UnidentifiedIsDefeated(d, step, statement);
    var fresh_ := FreshValue(ValuesIn(steps));
    var affected := DefeatedRow(d, step, statement, column);
    var other := affected[column := fresh_];
    assert other.Keys == Columns(step.event.change);
    assert IsForeign(steps, key, other, column, fresh_);
    AccountBeside(d, steps, tables, key, other);
    var with_ := Add(tables, key, other);
    var end := WrongRun(d, steps, with_, i, other, column, fresh_);
  }

  lemma DefeatedRow(d: Decoders, step: Step, statement: Statement, column: string) returns (affected: Row)
    requires IsDefeated(step, statement, column) && Recorded(d, step)
    ensures affected == Affected(step.effect) && !step.effect.Removed?
    ensures column in affected && affected.Keys == Columns(step.event.change)
  {
    affected := Affected(step.effect);
  }

  ghost predicate AllImagesIdentify(d: Decoders, steps: seq<Step>)
  {
    forall i :: 0 <= i < |steps| ==> ImagesIdentify(d, steps[i].event.change, steps[i].event.row)
  }

  lemma AllIdentifiedByImages(d: Decoders, steps: seq<Step>)
    requires AllReversible(d, Events(steps))
    ensures AllIdentified(d, steps) <==> AllImagesIdentify(d, steps)
  {
    hide ImagesIdentify, ResetRow, Identifies;
    forall i | 0 <= i < |steps|
      ensures IsIdentified(d, steps[i]) <==> ImagesIdentify(d, steps[i].event.change, steps[i].event.row)
    {
      ReversibleAt(d, steps, i);
      var event := steps[i].event;
      IdentifiedByImages(d, event.change, event.row, ResetRow(d, event.change, event.row).value);
    }
  }

  /**
   The exact condition: a complete output undoes its transaction in every execution, whatever else the tables
   hold, iff each of its statements identifies its row; and the images tell.
   */
  lemma CompleteResetExactly(d: Decoders, transaction: Transaction, steps: seq<Step>, tables: Tables)
    requires Generate(d, transaction).complete && Events(steps) == RowEvents(transaction.changes)
    requires Account(d, steps, tables) && SameColumns(steps)
    ensures AlwaysRestores(d, steps, Generate(d, transaction).statements) <==> AllIdentified(d, steps)
    ensures AllIdentified(d, steps) <==> AllImagesIdentify(d, steps)
  {
    hide IsIdentified, Account, Final, RunsTo, Generate, SameColumns, AllImagesIdentify;
    CompleteExactlyWhenInvertible(d, transaction);
    AllIdentifiedByImages(d, steps);
    if AllIdentified(d, steps) {
      forall tables, end |
        Account(d, steps, tables) && RunsTo(Generate(d, transaction).statements, Final(d, steps, tables), end)
        ensures end == tables
      {
        CompleteResetIsInverse(d, transaction, steps, tables);
      }
    } else {
      UnidentifiedIsNotEnough(d, steps, tables);
    }
  }

  // ----- the condition in terms of the images

  /** What the images alone say about the predicate and the assignments. */
  predicate ImagesIdentify(d: Decoders, change: Change, row: RowChange)
  {
    match change.operation
    case Insert => row.after.Some? && forall c :: c in change.columns ==> IsRecorded(row.after.value, c)
    case Update =>
      row.before.Some? && row.after.Some? &&
      var before, current := row.before.value, Current(row.before.value, row.after.value);
      || (forall c :: c in change.columns ==> IsRecorded(current, c))
      || (forall c :: c in change.columns && IsRecorded(before, c) ==>
            IsRecorded(current, c) && StoredIn(d, before[c]) == StoredIn(d, current[c]))
    case _ => true
  }

  lemma NamesExactly(d: Decoders, change: Change, image: Image, pairs: Assignments)
    requires Produced(d, change.columns, image, pairs)
    ensures Names(change, pairs) <==> forall c :: c in change.columns ==> IsRecorded(image, c)
  {
    if Names(change, pairs) {
      forall c | c in change.columns ensures IsRecorded(image, c) {
        assert NamesColumn(pairs, c);
      }
    }
  }

  /** What a produced pair denotes is what its cell says is stored. */
  lemma ProducedDenotes(d: Decoders, columns: seq<string>, image: Image, pairs: Assignments, i: nat)
    requires Produced(d, columns, image, pairs) && i < |pairs|
    ensures pairs[i].0 in columns && IsRecorded(image, pairs[i].0)
    ensures StoredIn(d, image[pairs[i].0]) == Some(Denotes(pairs[i].1))
  {
    hide CellLiteral, StoredIn, Denotes;
    LiteralDenotesCell(d, image[pairs[i].0]);
  }

  lemma WithinExactly(d: Decoders, columns: seq<string>, before: Image, current: Image, set_: Assignments, where: Assignments)
    requires Produced(d, columns, before, set_) && Produced(d, columns, current, where)
    ensures (forall pair :: pair in set_ ==> TestsFor(where, pair)) <==>
            forall c :: c in columns && IsRecorded(before, c) ==>
              IsRecorded(current, c) && StoredIn(d, before[c]) == StoredIn(d, current[c])
  {
    hide CellLiteral, StoredIn, Denotes;
    if forall pair :: pair in set_ ==> TestsFor(where, pair) {
      forall c | c in columns && IsRecorded(before, c)
        ensures IsRecorded(current, c) && StoredIn(d, before[c]) == StoredIn(d, current[c])
      {
        var i: nat :| i < |set_| && set_[i].0 == c;
        assert set_[i] in set_ && TestsFor(where, set_[i]);
        var j: nat :| j < |where| && where[j].0 == c && Denotes(where[j].1) == Denotes(set_[i].1);
        ProducedDenotes(d, columns, before, set_, i);
        ProducedDenotes(d, columns, current, where, j);
      }
    } else {
      var pair :| pair in set_ && !TestsFor(where, pair);
      var i: nat :| i < |set_| && set_[i] == pair;
      ProducedDenotes(d, columns, before, set_, i);
      if IsRecorded(current, pair.0) {
        var j: nat :| j < |where| && where[j].0 == pair.0;
        ProducedDenotes(d, columns, current, where, j);
      }
    }
  }

  /** The output identifies its row exactly when the images do. */
  lemma IdentifiedByImages(d: Decoders, change: Change, row: RowChange, statement: Statement)
    requires !change.operation.Ddl? && ResetRow(d, change, row) == Success(statement)
    ensures Identifies(change, statement) <==> ImagesIdentify(d, change, row)
  {
    hide ColumnValues, Produced, Names;
    match change.operation {
      case Insert =>
        ColumnValuesProduced(d, change.columns, row.after.value, false);
        NamesExactly(d, change, row.after.value, statement.where);
      case Update =>
        var before, current := row.before.value, Current(row.before.value, row.after.value);
        ColumnValuesProduced(d, change.columns, before, false);
        ColumnValuesProduced(d, change.columns, current, false);
        NamesExactly(d, change, current, statement.where);
        WithinExactly(d, change.columns, before, current, statement.set_, statement.where);
      case Delete =>
    }
  }
}
