/**
 Which conditions take part, which of them compile, and what the errors of the others say.
 */
module FilterAcceptance {
  import opened Wrappers
  import opened FilterText
  import opened MysqlText
  import opened TableFilter
  import opened FilterAnswers
  import Lists
  import Text

  // ----- taking part

  /** Switched on, with a column, and with a text to compare with where one is needed. */
  predicate Participates(condition: Condition)
  {
    && condition.enabled && condition.columnName != ""
    && (condition.operator == IsNull || condition.operator == IsNotNull || !Text.IsBlank(condition.value))
  }

  lemma TakesPartExactly(condition: Condition)
    ensures TakesPart(condition) <==> Participates(condition)
  {
    hide Text.IsWhitespace, Text.Trim;
    BlankIsTrimmed(condition.value);
  }

  lemma BlankIsTrimmed(value: string)
    ensures Text.Trim(value) == "" <==> Text.IsBlank(value)
  {
    hide Text.IsWhitespace, Text.Trim;
    var before, behind := Text.TrimSplits(value);
    if Text.IsBlank(value) {
      Text.TrimIs(value, "", "");
      assert value + "" + "" == value;
    }
    if Text.Trim(value) == "" {
      assert value == before + behind;
    }
  }

  lemma ActiveOfNone()
    ensures Active([]) == []
  {
  }

  lemma ActiveOfOneMore(condition: Condition, rest: seq<Condition>)
    ensures Active([condition] + rest) == (if TakesPart(condition) then [condition] else []) + Active(rest)
  {
    hide TakesPart;
    assert ([condition] + rest)[1..] == rest;
  }

  lemma {:induction false} ActiveOfBoth(left: seq<Condition>, right: seq<Condition>)
    ensures Active(left + right) == Active(left) + Active(right)
    decreases |left|
  {
    hide TakesPart, Active;
    if left == [] {
      assert left + right == right;
      ActiveOfNone();
    } else {
      var rest := left[1..];
      assert left + right == [left[0]] + (rest + right);
      ActiveOfOneMore(left[0], rest);
      ActiveOfOneMore(left[0], rest + right);
      assert left == [left[0]] + rest;
      ActiveOfBoth(rest, right);
    }
  }

  /** Each condition is kept in its place exactly when it participates. */
  lemma ActiveAre(left: seq<Condition>, condition: Condition, right: seq<Condition>)
    ensures Active(left + [condition] + right) ==
            Active(left) + (if Participates(condition) then [condition] else []) + Active(right)
  {
    hide TakesPart, Participates;
    TakesPartExactly(condition);
    ActiveOfBoth(left + [condition], right);
    ActiveOfBoth(left, [condition]);
    assert [condition][1..] == [] && Active([]) == [];
  }

  // ----- compiling

  /** What a column takes as an operand. */
  ghost predicate IsOperand(kind: Kind, value: string)
  {
    match kind
    case NumericKind => NumericGrammar(Text.Trim(value))
    case TemporalKind => !Text.IsBlank(value)
    case _ => true
  }

  /** The column of that name that comes first. */
  ghost predicate IsFirstNamed(schema: seq<Column>, name: string, k: nat)
  {
    k < |schema| && schema[k].name == name && forall j: nat :: j < k ==> schema[j].name != name
  }

  ghost predicate IsAccepted(condition: Condition, column: Column)
  {
    var kind, value := KindOf(column.columnType), condition.value;
    && Suits(kind, condition.operator)
    && match condition.operator
       case IsNull => true
       case IsNotNull => true
       case In => IsItemList(kind, value)
       case NotIn => IsItemList(kind, value)
       case Between => AreBounds(value) && forall k :: 0 <= k < 2 ==> IsOperand(kind, SplitList(value)[k])
       case Like => value != ""
       case NotLike => value != ""
       case Contains => value != ""
       case StartsWith => value != ""
       case EndsWith => value != ""
       case _ => IsOperand(kind, value)
  }

  ghost predicate IsItemList(kind: Kind, value: string)
  {
    (exists item :: IsItem(value, item)) && forall item :: IsItem(value, item) ==> IsOperand(kind, item)
  }

  predicate AreBounds(value: string)
  {
    |SplitList(value)| == 2 && !Text.IsBlank(SplitList(value)[0]) && !Text.IsBlank(SplitList(value)[1])
  }

  lemma LiteralExactly(value: string, column: Column)
    requires OperatorsFor(column.columnType) != {}
    ensures ValueLiteral(value, column).Success? <==> IsOperand(KindOf(column.columnType), value)
  {
    hide BaseType, KindOfWord, IsNumericLiteral, NumericGrammar, MysqlStringLiteral, Text.Trim, Text.IsBlank;
    ListsAreKinds(BaseType(column.columnType));
    NumericLiteralMeetsGrammar(Text.Trim(value));
    BlankIsTrimmed(value);
  }

  lemma {:induction false} ListExactly(items: seq<string>, column: Column)
    requires items != [] && OperatorsFor(column.columnType) != {}
    ensures ListText(items, column).Success? <==> forall item :: item in items ==> IsOperand(KindOf(column.columnType), item)
  {
    hide OperatorsFor, KindOf, ValueLiteral, IsOperand;
    LiteralExactly(items[0], column);
    if |items| > 1 {
      ListExactly(items[1..], column);
      assert forall item :: item in items <==> item == items[0] || item in items[1..];
    }
  }

  lemma ItemsExactly(value: string, column: Column)
    requires OperatorsFor(column.columnType) != {}
    ensures (ListItems(value) != [] && ListText(ListItems(value), column).Success?) <==>
            IsItemList(KindOf(column.columnType), value)
  {
    hide OperatorsFor, KindOf, IsOperand, ListText, TrimmedItems, Text.Trim, SplitList;
    var items := ListItems(value);
    ListIsOfItems(value);
    if items != [] {
      ListExactly(items, column);
    }
  }

  lemma ListIsOfItems(value: string)
    ensures forall item :: item in ListItems(value) <==> IsItem(value, item)
    ensures ListItems(value) != [] <==> exists item :: IsItem(value, item)
  {
    hide TrimmedItems, Text.Trim, SplitList, IsItem;
    forall item ensures item in ListItems(value) <==> IsItem(value, item) {
      ItemIsListed(value, item);
    }
    if ListItems(value) != [] {
      assert IsItem(value, ListItems(value)[0]);
    }
  }

  lemma ItemIsListed(value: string, item: string)
    ensures item in ListItems(value) <==> IsItem(value, item)
  {
    hide TrimmedItems, Text.Trim, SplitList;
    TrimmedItemsAre(SplitList(value), item);
  }

  lemma PredicateExactly(condition: Condition, column: Column)
    requires Suits(KindOf(column.columnType), condition.operator)
    requires OperatorsFor(column.columnType) != {}
    ensures FilterPredicate(condition, column).Success? <==> IsAccepted(condition, column)
  {
    hide OperatorsFor, KindOf, Suits, ListText, ListItems, IsItemList, IsOperand, ValueLiteral, Text.Trim, Text.IsBlank, SplitList;
    var value := condition.value;
    LiteralExactly(value, column);
    match condition.operator {
      case In => ItemsExactly(value, column);
      case NotIn => ItemsExactly(value, column);
      case Between =>
        if |SplitList(value)| == 2 {
          BlankIsTrimmed(SplitList(value)[0]);
          BlankIsTrimmed(SplitList(value)[1]);
          LiteralExactly(SplitList(value)[0], column);
          LiteralExactly(SplitList(value)[1], column);
        }
      case _ =>
    }
  }

  lemma {:induction false} FoundIsFirst(schema: seq<Column>, name: string)
    ensures FindColumn(schema, name).Some? <==> exists k: nat :: k < |schema| && IsFirstNamed(schema, name, k)
    ensures forall k: nat :: k < |schema| && IsFirstNamed(schema, name, k) ==> FindColumn(schema, name) == Some(schema[k])
  {
    if schema != [] {
      FoundIsFirst(schema[1..], name);
      if schema[0].name == name {
        assert IsFirstNamed(schema, name, 0);
      } else {
        forall k: nat | k < |schema| ensures IsFirstNamed(schema, name, k) <==> k > 0 && IsFirstNamed(schema[1..], name, k - 1) {
          assert k > 0 ==> schema[1..][k - 1] == schema[k];
          assert forall j: nat :: 0 < j < |schema| ==> schema[1..][j - 1] == schema[j];
          if k > 0 && IsFirstNamed(schema[1..], name, k - 1) {
            forall j: nat | j < k ensures schema[j].name != name {
            }
          }
          if IsFirstNamed(schema, name, k) {
            forall j: nat | j < k - 1 ensures schema[1..][j].name != name {
              assert schema[1..][j] == schema[j + 1];
            }
          }
        }
        if k: nat :| k < |schema[1..]| && IsFirstNamed(schema[1..], name, k) {
          assert IsFirstNamed(schema, name, k + 1);
        }
      }
    }
  }

  /** Which conditions compile. */
  lemma CompilesExactly(condition: Condition, schema: seq<Column>)
    ensures CompileCondition(condition, schema).Success? <==>
            exists k: nat :: k < |schema| && IsFirstNamed(schema, condition.columnName, k) && IsAccepted(condition, schema[k])
  {
    hide FilterPredicate, IsAccepted, OperatorsFor, IsFirstNamed, FindColumn;
    FoundIsFirst(schema, condition.columnName);
    if k: nat :| k < |schema| && IsFirstNamed(schema, condition.columnName, k) {
      CompilesOn(condition, schema[k]);
    }
  }

  lemma CompilesOn(condition: Condition, column: Column)
    ensures condition.operator in OperatorsFor(column.columnType) && FilterPredicate(condition, column).Success? <==>
            IsAccepted(condition, column)
  {
    hide FilterPredicate, OperatorsFor, KindOf, Suits;
    OperatorsAreSuitable(column.columnType, condition.operator);
    if Suits(KindOf(column.columnType), condition.operator) {
      PredicateExactly(condition, column);
    }
  }

  // ----- errors

  /** A text that the condition would have to write as an operand. */
  ghost predicate IsOperandText(condition: Condition, text: string)
  {
    match condition.operator
    case In => IsItem(condition.value, text)
    case NotIn => IsItem(condition.value, text)
    case Between => text in SplitList(condition.value)
    case _ => text == condition.value
  }

  ghost predicate IsTrueOn(error: FilterError, condition: Condition, column: Column)
  {
    var kind, operator, value := KindOf(column.columnType), condition.operator, condition.value;
    match error
    case UnknownColumn(_) => false
    case UnsupportedOperator(name, columnType) => Column(name, columnType) == column && !Suits(kind, operator)
    case NeedsNumber(name) =>
      && name == column.name && kind.NumericKind?
      && exists text :: IsOperandText(condition, text) && !NumericGrammar(Text.Trim(text))
    case NeedsTime(name) =>
      name == column.name && kind.TemporalKind? && exists text :: IsOperandText(condition, text) && Text.IsBlank(text)
    case NeedsValues(name, listed) =>
      && name == column.name && listed == operator && (operator == In || operator == NotIn)
      && forall item :: !IsItem(value, item)
    case NeedsTwoBounds(name) => name == column.name && operator == Between && !AreBounds(value)
    case NeedsValue(name) => name == column.name && IsPattern(operator) && value == ""
  }

  /** What an error says holds of the condition. */
  ghost predicate IsTrueOf(error: FilterError, condition: Condition, schema: seq<Column>)
  {
    if exists k: nat :: k < |schema| && IsFirstNamed(schema, condition.columnName, k) then
      exists k: nat ::
        k < |schema| && IsFirstNamed(schema, condition.columnName, k) && IsTrueOn(error, condition, schema[k])
    else error == UnknownColumn(condition.columnName)
  }

  lemma LiteralErrorIs(value: string, column: Column)
    requires OperatorsFor(column.columnType) != {} && ValueLiteral(value, column).Failure?
    ensures match ValueLiteral(value, column).error
            case NeedsNumber(name) =>
              name == column.name && KindOf(column.columnType).NumericKind? && !NumericGrammar(Text.Trim(value))
            case NeedsTime(name) =>
              name == column.name && KindOf(column.columnType).TemporalKind? && Text.IsBlank(value)
            case _ => false
  {
    hide BaseType, KindOfWord, IsNumericLiteral, NumericGrammar, MysqlStringLiteral, Text.Trim, Text.IsBlank;
    ListsAreKinds(BaseType(column.columnType));
    NumericLiteralMeetsGrammar(Text.Trim(value));
    BlankIsTrimmed(value);
  }

  lemma {:induction false} ListErrorIs(items: seq<string>, column: Column) returns (item: string)
    requires items != [] && ListText(items, column).Failure?
    ensures item in items && ValueLiteral(item, column) == Failure(ListText(items, column).error)
  {
    hide ValueLiteral;
    if ValueLiteral(items[0], column).Failure? {
      item := items[0];
    } else {
      item := ListErrorIs(items[1..], column);
    }
  }

  /** The error of an operand is true of a condition that would write that operand. */
  lemma OperandErrorIsTrue(text: string, condition: Condition, column: Column, error: FilterError)
    requires OperatorsFor(column.columnType) != {} && ValueLiteral(text, column) == Failure(error)
    requires IsOperandText(condition, text)
    ensures IsTrueOn(error, condition, column)
  {
    hide OperatorsFor, KindOf, ValueLiteral, IsOperandText, NumericGrammar, Text.Trim, Text.IsBlank;
    LiteralErrorIs(text, column);
  }

  lemma PredicateErrorIsTrue(condition: Condition, column: Column)
    requires OperatorsFor(column.columnType) != {} && FilterPredicate(condition, column).Failure?
    ensures IsTrueOn(FilterPredicate(condition, column).error, condition, column)
  {
    hide OperatorsFor, KindOf, ListText, ListItems, NumericGrammar, ValueLiteral, Text.Trim, Text.IsBlank, SplitList, IsItem;
    var value, error := condition.value, FilterPredicate(condition, column).error;
    match condition.operator {
      case In => ListPredicateErrorIsTrue(condition, column);
      case NotIn => ListPredicateErrorIsTrue(condition, column);
      case Between => RangeErrorIsTrue(condition, column);
      case Like =>
      case NotLike =>
      case Contains =>
      case StartsWith =>
      case EndsWith =>
      case _ => OperandErrorIsTrue(value, condition, column, error);
    }
  }

  lemma ListPredicateErrorIsTrue(condition: Condition, column: Column)
    requires condition.operator == In || condition.operator == NotIn
    requires OperatorsFor(column.columnType) != {} && FilterPredicate(condition, column).Failure?
    ensures IsTrueOn(FilterPredicate(condition, column).error, condition, column)
  {
    hide OperatorsFor, KindOf, ListText, ListItems, NumericGrammar, ValueLiteral, Text.Trim, Text.IsBlank, SplitList, IsItem;
    var items := ListItems(condition.value);
    ListIsOfItems(condition.value);
    if items != [] {
      var item := ListErrorIs(items, column);
      OperandErrorIsTrue(item, condition, column, FilterPredicate(condition, column).error);
    }
  }

  lemma RangeErrorIsTrue(condition: Condition, column: Column)
    requires condition.operator == Between
    requires OperatorsFor(column.columnType) != {} && FilterPredicate(condition, column).Failure?
    ensures IsTrueOn(FilterPredicate(condition, column).error, condition, column)
  {
    hide OperatorsFor, KindOf, NumericGrammar, ValueLiteral, Text.Trim, Text.IsBlank, SplitList;
    var bounds, error := SplitList(condition.value), FilterPredicate(condition, column).error;
    if |bounds| == 2 {
      BlankIsTrimmed(bounds[0]);
      BlankIsTrimmed(bounds[1]);
      if AreBounds(condition.value) {
        var k := if ValueLiteral(bounds[0], column).Failure? then 0 else 1;
        OperandErrorIsTrue(bounds[k], condition, column, error);
      }
    }
  }

  /** The error of a condition that does not compile says what is wrong with it. */
  lemma ErrorIsTrue(condition: Condition, schema: seq<Column>)
    requires CompileCondition(condition, schema).Failure?
    ensures IsTrueOf(CompileCondition(condition, schema).error, condition, schema)
  {
    hide FilterPredicate, OperatorsFor, KindOf, Suits, FindColumn, IsFirstNamed;
    var name := condition.columnName;
    FoundIsFirst(schema, name);
    if k: nat :| k < |schema| && IsFirstNamed(schema, name, k) {
      var column := schema[k];
      OperatorsAreSuitable(column.columnType, condition.operator);
      if condition.operator in OperatorsFor(column.columnType) {
        PredicateErrorIsTrue(condition, column);
      }
      FoundIsNamed(schema, name);
    }
  }

  lemma FoundIsNamed(schema: seq<Column>, name: string)
    requires FindColumn(schema, name).Some?
    ensures FindColumn(schema, name).value.name == name
  {
  }

  ghost predicate Accepted(condition: Condition, schema: seq<Column>)
  {
    exists k: nat :: k < |schema| && IsFirstNamed(schema, condition.columnName, k) && IsAccepted(condition, schema[k])
  }

  lemma FirstErrorIs(condition: Condition, schema: seq<Column>)
    ensures CompileCondition(condition, schema).Success? <==> Accepted(condition, schema)
    ensures !Accepted(condition, schema) ==> IsTrueOf(CompileCondition(condition, schema).error, condition, schema)
  {
    hide CompileCondition, IsFirstNamed, IsAccepted, IsTrueOf;
    CompilesExactly(condition, schema);
    if !Accepted(condition, schema) {
      ErrorIsTrue(condition, schema);
    }
  }

  /** An error is true of one of the rejected conditions. */
  ghost predicate Blames(error: FilterError, active: seq<Condition>, schema: seq<Column>)
  {
    exists i :: 0 <= i < |active| && !Accepted(active[i], schema) && IsTrueOf(error, active[i], schema)
  }

  /** Some error is true of the condition. */
  ghost predicate IsMentioned(condition: Condition, errors: seq<FilterError>, schema: seq<Column>)
  {
    exists i :: 0 <= i < |errors| && IsTrueOf(errors[i], condition, schema)
  }

  lemma {:induction false} ErrorBlames(active: seq<Condition>, schema: seq<Column>, i: nat)
    requires i < |Errors(active, schema)|
    ensures Blames(Errors(active, schema)[i], active, schema)
  {
    hide CompileCondition, IsTrueOf, Accepted;
    FirstErrorIs(active[0], schema);
    if CompileCondition(active[0], schema).Success? {
      ErrorBlames(active[1..], schema, i);
      BlamesMore(Errors(active, schema)[i], active, schema);
    } else if i > 0 {
      ErrorBlames(active[1..], schema, i - 1);
      BlamesMore(Errors(active, schema)[i], active, schema);
    }
  }

  lemma BlamesMore(error: FilterError, active: seq<Condition>, schema: seq<Column>)
    requires active != [] && Blames(error, active[1..], schema)
    ensures Blames(error, active, schema)
  {
    hide IsTrueOf, Accepted;
    var i :| 0 <= i < |active[1..]| && !Accepted(active[1..][i], schema) && IsTrueOf(error, active[1..][i], schema);
    assert active[i + 1] == active[1..][i];
  }

  lemma {:induction false} RejectedIsMentioned(active: seq<Condition>, schema: seq<Column>, i: nat)
    requires i < |active| && !Accepted(active[i], schema)
    ensures IsMentioned(active[i], Errors(active, schema), schema)
  {
    hide CompileCondition, IsTrueOf, Accepted;
    FirstErrorIs(active[0], schema);
    var errors := Errors(active, schema);
    if i == 0 {
      assert IsTrueOf(errors[0], active[0], schema);
    } else {
      RejectedIsMentioned(active[1..], schema, i - 1);
      var rest := Errors(active[1..], schema);
      var k :| 0 <= k < |rest| && IsTrueOf(rest[k], active[i], schema);
      assert errors[|errors| - |rest| + k] == rest[k];
    }
  }

  lemma {:induction false} EachIsPartOrError(active: seq<Condition>, schema: seq<Column>)
    ensures |Parts(active, schema)| + |Errors(active, schema)| == |active|
  {
    hide CompileCondition;
    if active != [] {
      EachIsPartOrError(active[1..], schema);
    }
  }

  lemma MentionedOnce(condition: Condition, errors: seq<FilterError>, schema: seq<Column>)
    requires IsMentioned(condition, errors, schema)
    ensures IsMentioned(condition, Lists.Distinct(errors, {}), schema)
  {
    hide IsTrueOf, Lists.Distinct;
    Lists.DistinctKeepsEachOnce(errors, {});
    var i :| 0 <= i < |errors| && IsTrueOf(errors[i], condition, schema);
    assert errors[i] in Lists.Distinct(errors, {});
  }

  /** The errors, each listed once, blame rejected conditions, and none of these goes unmentioned. */
  lemma ErrorsAre(active: seq<Condition>, schema: seq<Column>)
    ensures var errors := Lists.Distinct(Errors(active, schema), {});
            && (forall i :: 0 <= i < |errors| ==> Blames(errors[i], active, schema))
            && (forall i :: 0 <= i < |active| && !Accepted(active[i], schema) ==> IsMentioned(active[i], errors, schema))
            && (forall i, j :: 0 <= i < j < |errors| ==> errors[i] != errors[j])
  {
    hide Errors, Accepted, Blames, IsMentioned, Lists.Distinct;
    var all := Errors(active, schema);
    var errors := Lists.Distinct(all, {});
    Lists.DistinctKeepsEachOnce(all, {});
    forall i | 0 <= i < |errors| ensures Blames(errors[i], active, schema) {
      assert errors[i] in all;
      var k :| 0 <= k < |all| && all[k] == errors[i];
      ErrorBlames(active, schema, k);
    }
    forall i | 0 <= i < |active| && !Accepted(active[i], schema) ensures IsMentioned(active[i], errors, schema) {
      RejectedIsMentioned(active, schema, i);
      MentionedOnce(active[i], all, schema);
    }
  }

  lemma NoErrorExactly(active: seq<Condition>, schema: seq<Column>)
    ensures Errors(active, schema) == [] <==> forall i :: 0 <= i < |active| ==> Accepted(active[i], schema)
  {
    hide Errors, Accepted, IsTrueOf;
    if Errors(active, schema) != [] {
      ErrorBlames(active, schema, 0);
    }
    forall i | 0 <= i < |active| && !Accepted(active[i], schema) ensures Errors(active, schema) != [] {
      RejectedIsMentioned(active, schema, i);
    }
  }

  lemma DistinctIsEmpty(errors: seq<FilterError>)
    ensures Lists.Distinct(errors, {}) == [] <==> errors == []
  {
  }

  /**
   The clause is written exactly when every condition that takes part is accepted; otherwise the errors
   say what is wrong with those that are not.
   */
  lemma ClauseOutcome(conditions: seq<Condition>, schema: seq<Column>)
    ensures var clause, active := Compile(conditions, schema), Active(conditions);
            && (clause.errors == [] <==> forall i :: 0 <= i < |active| ==> Accepted(active[i], schema))
            && (clause.whereClause != "" <==> clause.errors == [] && active != [])
            && (clause.errors == [] ==>
                  clause.activeCount == if |active| < 0x1_0000_0000 then |active| else 0xFFFF_FFFF)
            && (clause.errors != [] ==> clause.activeCount == 0)
            && (forall i :: 0 <= i < |clause.errors| ==> Blames(clause.errors[i], active, schema))
            && (forall i :: 0 <= i < |active| && !Accepted(active[i], schema) ==>
                  IsMentioned(active[i], clause.errors, schema))
            && (forall i, j :: 0 <= i < j < |clause.errors| ==> clause.errors[i] != clause.errors[j])
  {
    hide Errors, Parts, Active, ClauseText, IsMixed, Lists.Distinct, Accepted, Blames, IsMentioned;
    var active := Active(conditions);
    ErrorsAre(active, schema);
    NoErrorExactly(active, schema);
    EachIsPartOrError(active, schema);
    DistinctIsEmpty(Errors(active, schema));
  }
}
