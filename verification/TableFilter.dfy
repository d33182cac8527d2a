/**
 The quick-filter compiler: draft conditions become the text of one WHERE clause.

 Error messages are kept as kinds. What the text means is the subject of FilterMeaning.
 */
module TableFilter {
  import opened Wrappers
  import opened Text
  import opened FilterText
  import opened LikePatterns
  import opened MysqlText
  import Lists

  datatype Operator =
    | Equal | NotEqual | Greater | GreaterOrEqual | Less | LessOrEqual | Like | NotLike
    | Contains | StartsWith | EndsWith | In | NotIn | Between | IsNull | IsNotNull

  datatype Conjunction = And | Or

  datatype Condition = Condition(
    columnName: string, operator: Operator, value: string, conjunction: Conjunction, enabled: bool)

  datatype Column = Column(name: string, columnType: string)

  datatype FilterError =
    | UnknownColumn(name: string)
    | UnsupportedOperator(name: string, columnType: string)
    | NeedsNumber(name: string)
    | NeedsTime(name: string)
    | NeedsValues(name: string, operator: Operator)
    | NeedsTwoBounds(name: string)
    | NeedsValue(name: string)

  datatype Clause = Clause(whereClause: string, errors: seq<FilterError>, activeCount: nat)

  const U32_MAX: nat := 0xFFFF_FFFF

  function Sql(operator: Operator): string
  {
    match operator
    case Equal => "="
    case NotEqual => "!="
    case Greater => ">"
    case GreaterOrEqual => ">="
    case Less => "<"
    case LessOrEqual => "<="
    case Like => "LIKE"
    case NotLike => "NOT LIKE"
    case Contains => "CONTAINS"
    case StartsWith => "STARTS_WITH"
    case EndsWith => "ENDS_WITH"
    case In => "IN"
    case NotIn => "NOT IN"
    case Between => "BETWEEN"
    case IsNull => "IS NULL"
    case IsNotNull => "IS NOT NULL"
  }

  function ConjunctionSql(conjunction: Conjunction): string { if conjunction.And? then "AND" else "OR" }

  predicate IsUnary(operator: Operator) { operator.IsNull? || operator.IsNotNull? }

  // ----- column types

  const NUMERIC := {
    "tinyint", "smallint", "mediumint", "int", "integer", "bigint", "decimal", "numeric", "float", "double",
    "real", "year", "bit"}

  const TEMPORAL := {"date", "time", "datetime", "timestamp"}

  const UNFILTERABLE := {
    "geometry", "point", "linestring", "polygon", "multipoint", "multilinestring", "multipolygon",
    "geometrycollection", "tinyblob", "blob", "mediumblob", "longblob", "binary", "varbinary"}

  predicate IsAsciiLetter(c: char) { 'a' <= c <= 'z' || 'A' <= c <= 'Z' }

  function LowerChar(c: char): char { if 'A' <= c <= 'Z' then (c as int + 32) as char else c }

  function LeadingLetters(s: string): string
  {
    if s == [] || !IsAsciiLetter(s[0]) then [] else [LowerChar(s[0])] + LeadingLetters(s[1..])
  }

  function BaseType(columnType: string): string { LeadingLetters(Trim(columnType)) }

  const ORDERED_OPERATORS := {
    Equal, NotEqual, Greater, GreaterOrEqual, Less, LessOrEqual, Between, In, NotIn, IsNull, IsNotNull}

  const TEXT_OPERATORS := {
    Equal, NotEqual, Contains, StartsWith, EndsWith, Like, NotLike, In, NotIn, IsNull, IsNotNull}

  const EQUALITY_OPERATORS := {Equal, NotEqual, In, NotIn, IsNull, IsNotNull}

  function OperatorsFor(columnType: string): set<Operator>
  {
    var base := BaseType(columnType);
    if base in UNFILTERABLE then {}
    else if base in NUMERIC || base in TEMPORAL then ORDERED_OPERATORS
    else if base == "json" then EQUALITY_OPERATORS
    else TEXT_OPERATORS
  }

  // ----- one predicate

  /** One operand as a literal of the column's kind. */
  function ValueLiteral(value: string, column: Column): Result<string, FilterError>
  {
    var base := BaseType(column.columnType);
    if base in NUMERIC then
      if IsNumericLiteral(Trim(value)) then Success(Trim(value)) else Failure(NeedsNumber(column.name))
    else if base in TEMPORAL then
      if Trim(value) == "" then Failure(NeedsTime(column.name)) else Success(MysqlStringLiteral(Trim(value)))
    else
      Success(MysqlStringLiteral(value))
  }

  function TrimmedItems(items: seq<string>): seq<string>
  {
    if items == [] then []
    else (if Trim(items[0]) == "" then [] else [Trim(items[0])]) + TrimmedItems(items[1..])
  }

  function ListItems(value: string): seq<string> { TrimmedItems(SplitList(value)) }

  /** The literals of a list, joined with commas, or the first error. */
  function ListText(items: seq<string>, column: Column): Result<string, FilterError>
    requires items != []
  {
    match ValueLiteral(items[0], column)
    case Failure(error) => Failure(error)
    case Success(literal) =>
      if |items| == 1 then Success(literal)
      else
        match ListText(items[1..], column)
        case Failure(error) => Failure(error)
        case Success(rest) => Success(literal + ", " + rest)
  }

  function WithPrefix(prefix: string, rest: Result<string, FilterError>): Result<string, FilterError>
  {
    match rest
    case Failure(error) => Failure(error)
    case Success(text) => Success(prefix + text)
  }

  /** The loop over the items, stopping at the first one that is no literal of the column. */
  method ComputeListText(items: seq<string>, column: Column) returns (text: Result<string, FilterError>)
    requires items != []
    ensures text == ListText(items, column)
  {
    var first := ValueLiteral(items[0], column);
    if first.Failure? {
      return Failure(first.error);
    }
    var joined := first.value;
    for i := 1 to |items|
      invariant ListText(items, column) ==
                if i == |items| then Success(joined) else WithPrefix(joined + ", ", ListText(items[i..], column))
    {
      assert items[i..][0] == items[i] && items[i..][1..] == items[i + 1..];
      var literal := ValueLiteral(items[i], column);
      if literal.Failure? {
        return Failure(literal.error);
      }
      if i + 1 < |items| {
        PrefixTwice(joined + ", ", literal.value + ", ", ListText(items[i + 1..], column));
        assert joined + ", " + (literal.value + ", ") == joined + ", " + literal.value + ", ";
      }
      joined := joined + ", " + literal.value;
    }
    text := Success(joined);
  }

  lemma PrefixTwice(outer: string, inner: string, rest: Result<string, FilterError>)
    ensures WithPrefix(outer, WithPrefix(inner, rest)) == WithPrefix(outer + inner, rest)
  {
    if rest.Success? {
      assert outer + inner + rest.value == outer + (inner + rest.value);
    }
  }

  function LikePattern(operator: Operator, value: string): string
  {
    match operator
    case Contains => "%" + EscapeLikeWildcards(value) + "%"
    case StartsWith => EscapeLikeWildcards(value) + "%"
    case _ => "%" + EscapeLikeWildcards(value)
  }

  const ESCAPE_CLAUSE := " ESCAPE '\\\\'"

  function FilterPredicate(condition: Condition, column: Column): Result<string, FilterError>
  {
    var identifier := QuoteIdentifier(column.name);
    var operator, value := condition.operator, condition.value;
    match operator
    case IsNull => Success(identifier + " " + Sql(operator))
    case IsNotNull => Success(identifier + " " + Sql(operator))
    case In => ListPredicate(identifier, operator, value, column)
    case NotIn => ListPredicate(identifier, operator, value, column)
    case Between => RangePredicate(identifier, value, column)
    case Contains => PatternPredicate(identifier, operator, value, column)
    case StartsWith => PatternPredicate(identifier, operator, value, column)
    case EndsWith => PatternPredicate(identifier, operator, value, column)
    case Like => WildcardPredicate(identifier, operator, value, column)
    case NotLike => WildcardPredicate(identifier, operator, value, column)
    case _ => WithPrefix(identifier + " " + Sql(operator) + " ", ValueLiteral(value, column))
  }

  function ListPredicate(identifier: string, operator: Operator, value: string, column: Column)
    : Result<string, FilterError>
  {
    if ListItems(value) == [] then Failure(NeedsValues(column.name, operator))
    else
      match ListText(ListItems(value), column)
      case Failure(error) => Failure(error)
      case Success(text) => Success(identifier + " " + Sql(operator) + " (" + text + ")")
  }

  function RangePredicate(identifier: string, value: string, column: Column): Result<string, FilterError>
  {
    var bounds := SplitList(value);
    if |bounds| != 2 || Trim(bounds[0]) == "" || Trim(bounds[1]) == "" then Failure(NeedsTwoBounds(column.name))
    else
      match ValueLiteral(bounds[0], column)
      case Failure(error) => Failure(error)
      case Success(lower) => WithPrefix(identifier + " BETWEEN " + lower + " AND ", ValueLiteral(bounds[1], column))
  }

  function PatternPredicate(identifier: string, operator: Operator, value: string, column: Column)
    : Result<string, FilterError>
  {
    if value == "" then Failure(NeedsValue(column.name))
    else Success(identifier + " LIKE " + MysqlStringLiteral(LikePattern(operator, value)) + ESCAPE_CLAUSE)
  }

  function WildcardPredicate(identifier: string, operator: Operator, value: string, column: Column)
    : Result<string, FilterError>
  {
    if value == "" then Failure(NeedsValue(column.name))
    else Success(identifier + " " + Sql(operator) + " " + MysqlStringLiteral(value))
  }

  // ----- the clause

  datatype Part = Part(text: string, conjunction: Conjunction)

  /** A condition that takes part: enabled, with a column, and not half-written. */
  predicate TakesPart(condition: Condition)
  {
    condition.enabled && condition.columnName != "" && (IsUnary(condition.operator) || Trim(condition.value) != "")
  }

  function FindColumn(schema: seq<Column>, name: string): (column: Option<Column>)
    ensures column.Some? ==> column.value in schema && column.value.name == name
    ensures column.None? <==> forall c :: c in schema ==> c.name != name
  {
    if schema == [] then None
    else if schema[0].name == name then Some(schema[0])
    else FindColumn(schema[1..], name)
  }

  function CompileCondition(condition: Condition, schema: seq<Column>): Result<string, FilterError>
  {
    match FindColumn(schema, condition.columnName)
    case None => Failure(UnknownColumn(condition.columnName))
    case Some(column) =>
      if condition.operator !in OperatorsFor(column.columnType)
      then Failure(UnsupportedOperator(column.name, column.columnType))
      else FilterPredicate(condition, column)
  }

  function Active(conditions: seq<Condition>): seq<Condition>
  {
    if conditions == [] then []
    else (if TakesPart(conditions[0]) then [conditions[0]] else []) + Active(conditions[1..])
  }

  function Parts(active: seq<Condition>, schema: seq<Column>): seq<Part>
  {
    if active == [] then []
    else
      match CompileCondition(active[0], schema)
      case Failure(_) => Parts(active[1..], schema)
      case Success(text) => [Part(text, active[0].conjunction)] + Parts(active[1..], schema)
  }

  function Errors(active: seq<Condition>, schema: seq<Column>): seq<FilterError>
  {
    if active == [] then []
    else
      match CompileCondition(active[0], schema)
      case Failure(error) => [error] + Errors(active[1..], schema)
      case Success(_) => Errors(active[1..], schema)
  }

  /** Both connectors occur between the parts; the first part's own connector is not used. */
  predicate IsMixed(parts: seq<Part>)
  {
    (exists i :: 1 <= i < |parts| && parts[i].conjunction.And?) && (exists i :: 1 <= i < |parts| && parts[i].conjunction.Or?)
  }

  function ClauseText(parts: seq<Part>, mixed: bool): string
    requires parts != []
  {
    var n := |parts| - 1;
    if n == 0 then parts[0].text
    else JoinPart(ClauseText(parts[..n], mixed), parts[n], mixed && n > 1)
  }

  function JoinPart(clause: string, part: Part, wrap: bool): string
  {
    (if wrap then "(" + clause + ")" else clause) + " " + ConjunctionSql(part.conjunction) + " " + part.text
  }

  function Compile(conditions: seq<Condition>, schema: seq<Column>): Clause
  {
    var active := Active(conditions);
    var parts, errors := Parts(active, schema), Errors(active, schema);
    if errors != [] || parts == [] then Clause("", Lists.Distinct(errors, {}), 0)
    else
      Clause(
        " WHERE " + ClauseText(parts, IsMixed(parts)), [], if |parts| <= U32_MAX then |parts| else U32_MAX)
  }

  /** The first loop of the source: parts and errors of the conditions that take part. */
  method CollectParts(conditions: seq<Condition>, schema: seq<Column>)
    returns (parts: seq<Part>, errors: seq<FilterError>)
    ensures parts == Parts(Active(conditions), schema)
    ensures errors == Errors(Active(conditions), schema)
  {
    hide CompileCondition, TakesPart;
    parts, errors := [], [];
    for i := 0 to |conditions|
      invariant parts + Parts(Active(conditions[i..]), schema) == Parts(Active(conditions), schema)
      invariant errors + Errors(Active(conditions[i..]), schema) == Errors(Active(conditions), schema)
    {
      var condition, rest := conditions[i], Active(conditions[i + 1..]);
      assert conditions[i..][0] == condition && conditions[i..][1..] == conditions[i + 1..];
      if !TakesPart(condition) {
        assert Active(conditions[i..]) == rest;
        continue;
      }
      var active := Active(conditions[i..]);
      assert active[0] == condition && active[1..] == rest;
      var compiled := CompileCondition(condition, schema);
      match compiled {
        case Success(text) =>
          parts := parts + [Part(text, condition.conjunction)];
        case Failure(error) =>
          errors := errors + [error];
      }
    }
  }

  lemma TwoConnectors(connectors: set<Conjunction>)
    ensures |connectors| > 1 <==> And in connectors && Or in connectors
  {
    forall c | c in connectors ensures c in {And, Or} {
      match c {
        case And =>
        case Or =>
      }
    }
    if And !in connectors {
      assert connectors <= {Or};
      SubsetSize(connectors, {Or});
    } else if Or !in connectors {
      assert connectors <= {And};
      SubsetSize(connectors, {And});
    } else {
      assert connectors == {And, Or};
    }
  }

  lemma SubsetSize(small: set<Conjunction>, large: set<Conjunction>)
    requires small <= large
    ensures |small| <= |large|
  {
    if small != {} {
      var c :| c in small;
      SubsetSize(small - {c}, large - {c});
    }
  }

  method HasBothConnectors(parts: seq<Part>) returns (mixed: bool)
    requires parts != []
    ensures mixed == IsMixed(parts)
  {
    var connectors: set<Conjunction> := {};
    for i := 1 to |parts|
      invariant And in connectors <==> exists k :: 1 <= k < i && k < |parts| && parts[k].conjunction.And?
      invariant Or in connectors <==> exists k :: 1 <= k < i && k < |parts| && parts[k].conjunction.Or?
    {
      connectors := connectors + {parts[i].conjunction};
    }
    TwoConnectors(connectors);
    mixed := |connectors| > 1;
  }

  lemma ClauseTextStep(parts: seq<Part>, i: nat, mixed: bool)
    requires 1 <= i < |parts|
    ensures ClauseText(parts[..i + 1], mixed) == JoinPart(ClauseText(parts[..i], mixed), parts[i], mixed && i > 1)
  {
    assert parts[..i + 1][..i] == parts[..i] && parts[..i + 1][i] == parts[i];
  }

  /** The loop over the remaining parts; its index counts from the second part. */
  method JoinParts(parts: seq<Part>, mixed: bool) returns (text: string)
    requires parts != []
    ensures text == ClauseText(parts, mixed)
  {
    hide JoinPart;
    text := parts[0].text;
    assert parts[..1] == [parts[0]];
    for i := 1 to |parts|
      invariant text == ClauseText(parts[..i], mixed)
    {
      ClauseTextStep(parts, i, mixed);
      text := JoinPart(text, parts[i], mixed && i - 1 > 0);
    }
    assert parts[..|parts|] == parts;
  }

  method BuildTableFilterClause(conditions: seq<Condition>, schema: seq<Column>) returns (clause: Clause)
    ensures clause == Compile(conditions, schema)
  {
    hide IsMixed, Parts, Errors, Active, ClauseText, Lists.Distinct;
    var parts, errors := CollectParts(conditions, schema);
    if errors != [] || parts == [] {
      var distinct := Lists.Deduplicate(errors);
      return Clause("", distinct, 0);
    }
    var mixed := HasBothConnectors(parts);
    var text := JoinParts(parts, mixed);
    clause := Clause(" WHERE " + text, [], if |parts| <= U32_MAX then |parts| else U32_MAX);
  }
}
