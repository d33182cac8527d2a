/** What a plan holds: every statement and every error that the draft calls for, and no other. */
module DdlPlan {
  import opened Wrappers
  import opened TableDdl
  import Lists

  /** The original column a draft column was loaded as: the first one of that name. */
  ghost predicate Was(original: seq<Column>, source: string, before: Column)
  {
    exists i :: 0 <= i < |original| && original[i] == before && before.name == source &&
      forall j :: 0 <= j < i ==> original[j].name != source
  }

  /** An original column was edited: what the table knows of it differs. */
  ghost predicate IsEdited(original: seq<Column>, column: Column, before: Column)
  {
    column.sourceName.Some? && Was(original, column.sourceName.value, before) && Shape(before) != Shape(column)
  }

  /** The draft column calls for this statement. */
  ghost predicate CallsFor(original: seq<Column>, column: Column, rules: Rules, statement: Statement)
  {
    match statement
    case Drop(_) => false
    case Add(added) => added == column && column.sourceName == None && rules.validType(column.columnType)
    case Change(source, changed) =>
      && changed == column && column.sourceName == Some(source) && rules.validType(column.columnType)
      && exists before :: IsEdited(original, column, before) && rules.editable(before)
  }

  /** The draft column is in the way of a plan. */
  ghost predicate CallsForError(original: seq<Column>, column: Column, rules: Rules, error: DdlError)
  {
    match error
    case InvalidType(name) =>
      && name == column.name && !rules.validType(column.columnType)
      && (column.sourceName == None || exists before :: IsEdited(original, column, before) && rules.editable(before))
    case NotEditable(source) =>
      column.sourceName == Some(source) && exists before :: IsEdited(original, column, before) && !rules.editable(before)
  }

  lemma {:induction false} FoundWas(original: seq<Column>, source: string)
    ensures forall before :: Was(original, source, before) <==> Find(original, source) == Some(before)
  {
    if original != [] {
      FoundWas(original[1..], source);
      forall before ensures Was(original, source, before) <==> Find(original, source) == Some(before) {
        WasGoesOn(original, source, before);
      }
    }
  }

  lemma WasGoesOn(original: seq<Column>, source: string, before: Column)
    requires original != []
    ensures Was(original, source, before) <==>
            if original[0].name == source then before == original[0] else Was(original[1..], source, before)
  {
    var rest := original[1..];
    if Was(original, source, before) && original[0].name != source {
      var i :| 0 <= i < |original| && original[i] == before && before.name == source &&
        forall j :: 0 <= j < i ==> original[j].name != source;
      assert rest[i - 1] == before && forall j :: 0 <= j < i - 1 ==> rest[j] == original[j + 1];
    }
    if original[0].name != source && Was(rest, source, before) {
      var i :| 0 <= i < |rest| && rest[i] == before && before.name == source &&
        forall j :: 0 <= j < i ==> rest[j].name != source;
      assert original[i + 1] == before && forall j :: 1 <= j < i + 1 ==> original[j] == rest[j - 1];
    }
  }

  lemma SameIsShape(left: Column, right: Column)
    ensures SameColumn(left, right) <==> Shape(left) == Shape(right)
  {
  }

  lemma EditIs(original: seq<Column>, column: Column, rules: Rules)
    ensures forall statement :: EditOf(original, column, rules) == Emit(statement) <==>
              CallsFor(original, column, rules, statement)
    ensures forall error :: EditOf(original, column, rules) == Refuse(error) <==>
              CallsForError(original, column, rules, error)
  {
    hide SameColumn, Shape, Was;
    if column.sourceName.Some? {
      FoundWas(original, column.sourceName.value);
      var found := Find(original, column.sourceName.value);
      if found.Some? {
        SameIsShape(found.value, column);
      }
    }
  }

  lemma {:induction false} DropsAre(original: seq<Column>, draft: seq<Column>, statement: Statement)
    ensures statement in Drops(original, draft) <==>
            statement.Drop? && HasName(original, statement.name) && !IsRetained(draft, statement.name)
  {
    hide IsRetained;
    if original != [] {
      DropsAre(original[1..], draft, statement);
      assert original == [original[0]] + original[1..];
      if statement.Drop? {
        NameInFront(original, statement.name);
      }
    }
  }

  lemma NameInFront(original: seq<Column>, name: string)
    requires original != []
    ensures HasName(original, name) <==> original[0].name == name || HasName(original[1..], name)
  {
    if i :| 0 <= i < |original| && original[i].name == name {
      assert i > 0 ==> original[1..][i - 1] == original[i];
    }
    if i :| 0 <= i < |original[1..]| && original[1..][i].name == name {
      assert original[i + 1] == original[1..][i];
    }
  }

  lemma {:induction false} EditsAre(original: seq<Column>, draft: seq<Column>, rules: Rules, statement: Statement)
    ensures statement in Edits(original, draft, rules) <==>
            exists column :: column in draft && CallsFor(original, column, rules, statement)
  {
    hide EditOf, CallsFor;
    if draft != [] {
      EditsAre(original, draft[1..], rules, statement);
      EditIs(original, draft[0], rules);
      assert forall column :: column in draft <==> column == draft[0] || column in draft[1..];
    }
  }

  lemma {:induction false} RefusalsAre(original: seq<Column>, draft: seq<Column>, rules: Rules, error: DdlError)
    ensures error in Refusals(original, draft, rules) <==>
            exists column :: column in draft && CallsForError(original, column, rules, error)
  {
    hide EditOf, CallsForError;
    if draft != [] {
      RefusalsAre(original, draft[1..], rules, error);
      EditIs(original, draft[0], rules);
      assert forall column :: column in draft <==> column == draft[0] || column in draft[1..];
    }
  }

  /**
   A plan drops exactly the columns no draft column goes back to, and holds exactly the statements and the
   errors its draft columns call for, each error once.
   */
  lemma PlanHolds(original: seq<Column>, draft: seq<Column>, rules: Rules, statement: Statement, error: DdlError)
    ensures statement in PlanOf(original, draft, rules).statements <==>
            || (statement.Drop? && HasName(original, statement.name) && !IsRetained(draft, statement.name))
            || exists column :: column in draft && CallsFor(original, column, rules, statement)
    ensures error in PlanOf(original, draft, rules).errors <==>
            exists column :: column in draft && CallsForError(original, column, rules, error)
    ensures var errors := PlanOf(original, draft, rules).errors;
            forall i, j :: 0 <= i < j < |errors| ==> errors[i] != errors[j]
  {
    hide CallsFor, CallsForError, HasName, IsRetained, Drops, Edits, Refusals, Lists.Distinct;
    DropsAre(original, draft, statement);
    EditsAre(original, draft, rules, statement);
    RefusalsAre(original, draft, rules, error);
    Lists.DistinctKeepsEachOnce(Refusals(original, draft, rules), {});
  }
}
