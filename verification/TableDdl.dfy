/**
 The structure editor's planner: edits of a table's columns become ALTER TABLE statements.

 Statements are kept as a syntax tree that carries the column they define; whether a type is on the
 allowlist and whether a column can be rewritten are decided by regular expressions in the source and
 are parameters here.
 */
module TableDdl {
  import opened Wrappers
  import Lists

  datatype Column = Column(
    sourceName: Option<string>, name: string, columnType: string, nullable: bool, defaultValue: Option<string>,
    defaultExpression: bool, comment: string, primary: bool, extra: string, characterSet: Option<string>,
    collation: Option<string>, generationExpression: string)

  datatype Rules = Rules(validType: string -> bool, editable: Column -> bool)

  datatype Statement = Drop(name: string) | Add(column: Column) | Change(source: string, column: Column)

  datatype DdlError = InvalidType(name: string) | NotEditable(source: string)

  datatype Plan = Plan(statements: seq<Statement>, errors: seq<DdlError>)

  // ----- planning

  predicate IsSource(column: Column, name: string) { column.sourceName == Some(name) }

  predicate IsRetained(draft: seq<Column>, name: string)
  {
    exists j :: 0 <= j < |draft| && IsSource(draft[j], name)
  }

  function Find(columns: seq<Column>, name: string): (column: Option<Column>)
    ensures column.Some? ==> column.value in columns && column.value.name == name
    ensures column.None? <==> forall c :: c in columns ==> c.name != name
  {
    if columns == [] then None
    else if columns[0].name == name then Some(columns[0])
    else Find(columns[1..], name)
  }

  predicate SameColumn(left: Column, right: Column)
  {
    && left.name == right.name
    && left.columnType == right.columnType
    && left.nullable == right.nullable
    && left.defaultValue == right.defaultValue
    && left.defaultExpression == right.defaultExpression
    && left.comment == right.comment
    && left.extra == right.extra
    && left.characterSet == right.characterSet
    && left.collation == right.collation
    && left.generationExpression == right.generationExpression
  }

  function Drops(original: seq<Column>, draft: seq<Column>): seq<Statement>
  {
    if original == [] then []
    else (if IsRetained(draft, original[0].name) then [] else [Drop(original[0].name)]) + Drops(original[1..], draft)
  }

  /** What one draft column asks for: nothing, a statement, or an error. */
  datatype Edit = Keep | Emit(statement: Statement) | Refuse(error: DdlError)

  function EditOf(original: seq<Column>, column: Column, rules: Rules): Edit
  {
    match column.sourceName
    case None => if rules.validType(column.columnType) then Emit(Add(column)) else Refuse(InvalidType(column.name))
    case Some(source) =>
      match Find(original, source)
      case None => Keep
      case Some(before) =>
        if SameColumn(before, column) then Keep
        else if !rules.editable(before) then Refuse(NotEditable(source))
        else if !rules.validType(column.columnType) then Refuse(InvalidType(column.name))
        else Emit(Change(source, column))
  }

  function Edits(original: seq<Column>, draft: seq<Column>, rules: Rules): seq<Statement>
  {
    if draft == [] then []
    else
      match EditOf(original, draft[0], rules)
      case Emit(statement) => [statement] + Edits(original, draft[1..], rules)
      case _ => Edits(original, draft[1..], rules)
  }

  function Refusals(original: seq<Column>, draft: seq<Column>, rules: Rules): seq<DdlError>
  {
    if draft == [] then []
    else
      match EditOf(original, draft[0], rules)
      case Refuse(error) => [error] + Refusals(original, draft[1..], rules)
      case _ => Refusals(original, draft[1..], rules)
  }

  function PlanOf(original: seq<Column>, draft: seq<Column>, rules: Rules): Plan
  {
    Plan(Drops(original, draft) + Edits(original, draft, rules), Lists.Distinct(Refusals(original, draft, rules), {}))
  }

  method CollectRetained(draft: seq<Column>) returns (retained: set<string>)
    ensures forall name :: name in retained <==> IsRetained(draft, name)
  {
    retained := {};
    for j := 0 to |draft|
      invariant forall name :: name in retained <==> exists k :: 0 <= k < j && IsSource(draft[k], name)
    {
      if draft[j].sourceName.Some? {
        retained := retained + {draft[j].sourceName.value};
      }
    }
  }

  method CollectDrops(original: seq<Column>, draft: seq<Column>) returns (statements: seq<Statement>)
    ensures statements == Drops(original, draft)
  {
    hide Drops, IsRetained;
    var retained := CollectRetained(draft);
    statements := [];
    assert original[0..] == original;
    for i := 0 to |original|
      invariant statements + Drops(original[i..], draft) == Drops(original, draft)
    {
      DropStep(original, draft, i);
      if original[i].name !in retained {
        statements := statements + [Drop(original[i].name)];
      }
    }
    NothingLeftToDrop(original, draft);
  }

  lemma DropStep(original: seq<Column>, draft: seq<Column>, i: nat)
    requires i < |original|
    ensures Drops(original[i..], draft) ==
            (if IsRetained(draft, original[i].name) then [] else [Drop(original[i].name)]) + Drops(original[i + 1..], draft)
  {
    hide IsRetained;
    assert original[i..][0] == original[i] && original[i..][1..] == original[i + 1..];
  }

  lemma NothingLeftToDrop(original: seq<Column>, draft: seq<Column>)
    ensures Drops(original[|original|..], draft) == []
  {
  }

  function Emitted(edit: Edit): seq<Statement> { if edit.Emit? then [edit.statement] else [] }

  function Refused(edit: Edit): seq<DdlError> { if edit.Refuse? then [edit.error] else [] }

  lemma EditStep(original: seq<Column>, draft: seq<Column>, rules: Rules, i: nat)
    requires i < |draft|
    ensures Edits(original, draft[i..], rules) ==
            Emitted(EditOf(original, draft[i], rules)) + Edits(original, draft[i + 1..], rules)
    ensures Refusals(original, draft[i..], rules) ==
            Refused(EditOf(original, draft[i], rules)) + Refusals(original, draft[i + 1..], rules)
  {
    hide EditOf;
    assert draft[i..][0] == draft[i] && draft[i..][1..] == draft[i + 1..];
  }

  /** The loop over the draft: statements and errors in draft order. */
  method CollectEdits(original: seq<Column>, draft: seq<Column>, rules: Rules)
    returns (edits: seq<Statement>, errors: seq<DdlError>)
    ensures edits == Edits(original, draft, rules) && errors == Refusals(original, draft, rules)
  {
    hide EditOf, Edits, Refusals;
    edits, errors := [], [];
    for i := 0 to |draft|
      invariant edits + Edits(original, draft[i..], rules) == Edits(original, draft, rules)
      invariant errors + Refusals(original, draft[i..], rules) == Refusals(original, draft, rules)
    {
      EditStep(original, draft, rules, i);
      match EditOf(original, draft[i], rules) {
        case Keep =>
        case Emit(statement) => edits := edits + [statement];
        case Refuse(error) => errors := errors + [error];
      }
    }
    assert draft[|draft|..] == [];
    NothingToEdit(original, rules);
  }

  lemma NothingToEdit(original: seq<Column>, rules: Rules)
    ensures Edits(original, [], rules) == [] && Refusals(original, [], rules) == []
  {
  }

  method BuildTableDdlPlan(original: seq<Column>, draft: seq<Column>, rules: Rules) returns (plan: Plan)
    ensures plan == PlanOf(original, draft, rules)
  {
    var drops := CollectDrops(original, draft);
    var edits, errors := CollectEdits(original, draft, rules);
    var distinct := Lists.Deduplicate(errors);
    plan := Plan(drops + edits, distinct);
  }

  // ----- what the statements do to a table

  /** What a table knows of a column: not the editor's source name, nor key membership. */
  function Shape(column: Column): Column { column.(sourceName := None, primary := false) }

  predicate HasName(table: seq<Column>, name: string) { exists i :: 0 <= i < |table| && table[i].name == name }

  function Without(table: seq<Column>, name: string): seq<Column>
  {
    if table == [] then []
    else (if table[0].name == name then [] else [table[0]]) + Without(table[1..], name)
  }

  function Replaced(table: seq<Column>, name: string, column: Column): seq<Column>
  {
    if table == [] then []
    else [if table[0].name == name then column else table[0]] + Replaced(table[1..], name, column)
  }

  /**
   ALTER TABLE (MySQL 8.4 Reference Manual, section 15.1.9): a dropped or changed column must exist, a
   table keeps at least one column, and no two columns may share a name.
   */
  function Execute(statement: Statement, table: seq<Column>): Option<seq<Column>>
  {
    match statement
    case Drop(name) => if HasName(table, name) && |table| > 1 then Some(Without(table, name)) else None
    case Add(column) => if HasName(table, column.name) then None else Some(table + [Shape(column)])
    case Change(source, column) =>
      if HasName(table, source) && (column.name == source || !HasName(table, column.name))
      then Some(Replaced(table, source, Shape(column)))
      else None
  }

  function Run(statements: seq<Statement>, table: seq<Column>): Option<seq<Column>>
  {
    if statements == [] then Some(table)
    else
      match Execute(statements[0], table)
      case None => None
      case Some(next) => Run(statements[1..], next)
  }

  function Shapes(columns: seq<Column>): seq<Column>
  {
    if columns == [] then [] else [Shape(columns[0])] + Shapes(columns[1..])
  }

  lemma {:induction false} RunOfBoth(first: seq<Statement>, second: seq<Statement>, table: seq<Column>)
    ensures Run(first + second, table) ==
            match Run(first, table)
            case None => None
            case Some(next) => Run(second, next)
  {
    hide Execute;
    if first == [] {
      assert first + second == second;
    } else {
      assert (first + second)[1..] == first[1..] + second;
      match Execute(first[0], table) {
        case None =>
        case Some(next) => RunOfBoth(first[1..], second, next);
      }
    }
  }
}
