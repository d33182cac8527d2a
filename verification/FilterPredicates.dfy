/**
 The text of every compiled predicate reads back as the test its condition asks for.
 */
module FilterPredicates {
  import opened Wrappers
  import opened FilterText
  import opened LikePatterns
  import opened MysqlText
  import opened TableFilter
  import opened FilterMeaning
  import Text

  // ----- one operand

  function LexemeOf(operand: Operand): Lexeme
  {
    match operand
    case TextOperand(text) => Str(text)
    case NumberOperand(literal) => Bare(literal)
  }

  predicate IsWritable(operand: Operand) { operand.NumberOperand? ==> IsNumericLiteral(operand.literal) }

  lemma NumericIsRun(value: string)
    requires IsNumericLiteral(value)
    ensures IsRun(value)
  {
    hide IsNumericLiteral, MantissaGrammar, ExponentGrammar;
    NumericLiteralMeetsGrammar(value);
    var sign, m, e :| SignGrammar(sign) && MantissaGrammar(m) && ExponentGrammar(e) && value == sign + m + e;
    MantissaHasNoMark(m);
    ExponentIsPlain(e);
  }

  lemma ExponentIsPlain(e: string)
    requires ExponentGrammar(e)
    ensures forall i :: 0 <= i < |e| ==> !IsBreak(e[i])
  {
  }

  lemma OperandIsWritable(value: string, column: Column)
    requires ValueLiteral(value, column).Success?
    ensures IsWritable(OperandOf(value, column))
  {
    hide IsNumericLiteral;
  }

  lemma LexLiteral(value: string, column: Column, rest: string)
    requires ValueLiteral(value, column).Success? && Delimited(rest)
    ensures Lexemes(ValueLiteral(value, column).value + rest) ==
            FilterMeaning.Onto([LexemeOf(OperandOf(value, column))], Lexemes(rest))
  {
    hide IsNumericLiteral, Lexemes, MysqlStringLiteral;
    var base := BaseType(column.columnType);
    if base in NUMERIC {
      NumericIsRun(Text.Trim(value));
      LexBare(Text.Trim(value), rest);
    } else if base in TEMPORAL {
      LexText(Text.Trim(value), rest);
    } else {
      LexText(value, rest);
    }
  }

  // ----- a list of operands

  function ListLexemes(operands: seq<Operand>): seq<Lexeme>
  {
    if operands == [] then []
    else if |operands| == 1 then [LexemeOf(operands[0])]
    else [LexemeOf(operands[0]), Comma] + ListLexemes(operands[1..])
  }

  lemma LexSeparator(rest: string)
    ensures Lexemes(", " + rest) == FilterMeaning.Onto([Comma], Lexemes(rest))
  {
    hide Lexemes;
    assert ", " + rest == "," + (" " + rest);
    LexPunctuation(" " + rest);
    LexSpace(rest);
  }

  lemma {:induction false} LexList(items: seq<string>, column: Column, rest: string)
    requires items != [] && ListText(items, column).Success? && Delimited(rest)
    ensures Lexemes(ListText(items, column).value + rest) ==
            FilterMeaning.Onto(ListLexemes(OperandsOf(items, column)), Lexemes(rest))
    ensures forall o :: o in OperandsOf(items, column) ==> IsWritable(o)
    decreases |items|
  {
    hide Lexemes, ValueLiteral, IsWritable, OperandOf, LexemeOf, Delimited;
    OperandIsWritable(items[0], column);
    if |items| == 1 {
      LexLiteral(items[0], column, rest);
    } else {
      var literal, more := ValueLiteral(items[0], column).value, ListText(items[1..], column).value;
      assert literal + ", " + more + rest == literal + (", " + (more + rest));
      CommaDelimits(more + rest);
      LexLiteral(items[0], column, ", " + (more + rest));
      LexSeparator(more + rest);
      LexList(items[1..], column, rest);
      var operand := LexemeOf(OperandOf(items[0], column));
      OntoOnto([operand], [Comma], Lexemes(more + rest));
      assert [operand] + [Comma] == [operand, Comma];
      OntoOnto([operand, Comma], ListLexemes(OperandsOf(items[1..], column)), Lexemes(rest));
      assert OperandsOf(items, column)[1..] == OperandsOf(items[1..], column);
    }
  }

  lemma CommaDelimits(rest: string)
    ensures Delimited(", " + rest)
  {
  }

  // ----- operators

  function OperatorLexemes(operator: Operator): seq<Lexeme>
  {
    match operator
    case NotLike => [Bare("NOT"), Bare("LIKE")]
    case NotIn => [Bare("NOT"), Bare("IN")]
    case IsNull => [Bare("IS"), Bare("NULL")]
    case IsNotNull => [Bare("IS"), Bare("NOT"), Bare("NULL")]
    case _ => [Bare(Sql(operator))]
  }

  lemma LexTwo(first: string, second: string, rest: string)
    requires IsRun(first) && IsRun(second) && Delimited(rest)
    ensures Lexemes(first + " " + second + rest) == FilterMeaning.Onto([Bare(first), Bare(second)], Lexemes(rest))
  {
    hide Lexemes, IsRun;
    assert first + " " + second + rest == first + (" " + (second + rest));
    LexBare(first, " " + (second + rest));
    LexSpace(second + rest);
    LexBare(second, rest);
    OntoOnto([Bare(first)], [Bare(second)], Lexemes(rest));
    assert [Bare(first)] + [Bare(second)] == [Bare(first), Bare(second)];
  }

  lemma LexIsNotNull(rest: string)
    requires Delimited(rest)
    ensures Lexemes("IS NOT NULL" + rest) ==
            FilterMeaning.Onto([Bare("IS"), Bare("NOT"), Bare("NULL")], Lexemes(rest))
  {
    hide Lexemes;
    assert "IS NOT NULL" + rest == "IS" + (" " + ("NOT NULL" + rest));
    assert "NOT NULL" + rest == "NOT" + " " + "NULL" + rest;
    LexBare("IS", " " + ("NOT NULL" + rest));
    LexSpace("NOT NULL" + rest);
    LexTwo("NOT", "NULL", rest);
    OntoOnto([Bare("IS")], [Bare("NOT"), Bare("NULL")], Lexemes(rest));
    assert [Bare("IS")] + [Bare("NOT"), Bare("NULL")] == [Bare("IS"), Bare("NOT"), Bare("NULL")];
  }

  lemma LexOperator(operator: Operator, rest: string)
    requires Delimited(rest)
    ensures Lexemes(Sql(operator) + rest) == FilterMeaning.Onto(OperatorLexemes(operator), Lexemes(rest))
  {
    hide Lexemes, Delimited;
    match operator {
      case NotLike =>
        assert "NOT LIKE" == "NOT" + " " + "LIKE";
        LexTwo("NOT", "LIKE", rest);
      case NotIn =>
        assert "NOT IN" == "NOT" + " " + "IN";
        LexTwo("NOT", "IN", rest);
      case IsNull =>
        assert "IS NULL" == "IS" + " " + "NULL";
        LexTwo("IS", "NULL", rest);
      case IsNotNull =>
        LexIsNotNull(rest);
      case _ =>
        SingleOperatorIsRun(operator);
        LexBare(Sql(operator), rest);
    }
  }

  lemma SingleOperatorIsRun(operator: Operator)
    requires !operator.NotLike? && !operator.NotIn? && !operator.IsNull? && !operator.IsNotNull?
    ensures IsRun(Sql(operator))
  {
  }

  // ----- one predicate

  function ConditionLexemes(condition: Condition, column: Column): seq<Lexeme>
  {
    [Ident(column.name)] + TailLexemes(condition, column)
  }

  function TailLexemes(condition: Condition, column: Column): seq<Lexeme>
  {
    var operator, value := condition.operator, condition.value;
    match operator
    case IsNull => OperatorLexemes(operator)
    case IsNotNull => OperatorLexemes(operator)
    case In => OperatorLexemes(operator) + [Open] + ListLexemes(OperandsOf(ListItems(value), column)) + [Close]
    case NotIn => OperatorLexemes(operator) + [Open] + ListLexemes(OperandsOf(ListItems(value), column)) + [Close]
    case Between =>
      [Bare("BETWEEN"), LexemeOf(BoundOf(value, 0, column)), Bare("AND"), LexemeOf(BoundOf(value, 1, column))]
    case Contains => [Bare("LIKE"), Str(LikePattern(operator, value)), Bare("ESCAPE"), Str("\\")]
    case StartsWith => [Bare("LIKE"), Str(LikePattern(operator, value)), Bare("ESCAPE"), Str("\\")]
    case EndsWith => [Bare("LIKE"), Str(LikePattern(operator, value)), Bare("ESCAPE"), Str("\\")]
    case Like => OperatorLexemes(operator) + [Str(value)]
    case NotLike => OperatorLexemes(operator) + [Str(value)]
    case _ => OperatorLexemes(operator) + [LexemeOf(OperandOf(value, column))]
  }

  predicate Reads(text: string, rest: string, lexemes: seq<Lexeme>)
  {
    Lexemes(text + rest) == FilterMeaning.Onto(lexemes, Lexemes(rest))
  }

  /** Text read piece by piece. */
  lemma ReadsSpaced(first: string, second: string, rest: string, left: seq<Lexeme>, right: seq<Lexeme>)
    requires Reads(first, " " + (second + rest), left) && Reads(second, rest, right)
    ensures Reads(first + " " + second, rest, left + right)
  {
    hide Lexemes;
    LexSpace(second + rest);
    assert first + " " + second + rest == first + (" " + (second + rest));
    OntoOnto(left, right, Lexemes(rest));
  }

  lemma ReadsParenthesised(text: string, rest: string, lexemes: seq<Lexeme>)
    requires Reads(text, ")" + rest, lexemes)
    ensures Reads("(" + text + ")", rest, [Open] + lexemes + [Close])
  {
    hide Lexemes;
    assert "(" + text + ")" + rest == "(" + (text + (")" + rest));
    LexPunctuation(text + (")" + rest));
    LexPunctuation(rest);
    OntoOnto(lexemes, [Close], Lexemes(rest));
    OntoOnto([Open], lexemes + [Close], Lexemes(rest));
    assert [Open] + (lexemes + [Close]) == [Open] + lexemes + [Close];
  }

  lemma SpaceDelimits(rest: string)
    ensures Delimited(" " + rest) && Delimited(")" + rest)
  {
  }

  /** The operator and its operand's text. */
  lemma ReadsOperator(operator: Operator, text: string, rest: string, lexemes: seq<Lexeme>)
    requires Reads(text, rest, lexemes)
    ensures Reads(Sql(operator) + " " + text, rest, OperatorLexemes(operator) + lexemes)
  {
    hide Lexemes, Sql, OperatorLexemes;
    SpaceDelimits(text + rest);
    LexOperator(operator, " " + (text + rest));
    ReadsSpaced(Sql(operator), text, rest, OperatorLexemes(operator), lexemes);
  }

  lemma ReadsPattern(pattern: string, rest: string)
    requires Delimited(rest)
    ensures Reads("LIKE " + MysqlStringLiteral(pattern) + ESCAPE_CLAUSE, rest,
                  [Bare("LIKE"), Str(pattern), Bare("ESCAPE"), Str("\\")])
  {
    hide Lexemes, MysqlStringLiteral, Delimited;
    var escape := MysqlStringLiteral("\\");
    EscapeLiteral();
    LexText("\\", rest);
    SpaceDelimits(escape + rest);
    LexBare("ESCAPE", " " + (escape + rest));
    var tail := "ESCAPE" + " " + escape;
    ReadsSpaced("ESCAPE", escape, rest, [Bare("ESCAPE")], [Str("\\")]);
    SpaceDelimits(tail + rest);
    LexText(pattern, " " + (tail + rest));
    var lexemes := [Bare("ESCAPE")] + [Str("\\")];
    ReadsSpaced(MysqlStringLiteral(pattern), tail, rest, [Str(pattern)], lexemes);
    ReadsOperator(Like, MysqlStringLiteral(pattern) + " " + tail, rest, [Str(pattern)] + lexemes);
    assert OperatorLexemes(Like) + ([Str(pattern)] + lexemes) == [Bare("LIKE"), Str(pattern), Bare("ESCAPE"), Str("\\")];
    PatternText(MysqlStringLiteral(pattern), escape);
  }

  lemma EscapeLiteral()
    ensures MysqlStringLiteral("\\") == "'\\\\'"
  {
    assert Doubled("", '\\') == "" && Doubled("\\", '\\') == "\\\\";
    assert "\\\\"[1..] == "\\";
    assert Doubled("", '\'') == "" && Doubled("\\", '\'') == "\\" && Doubled("\\\\", '\'') == "\\\\";
  }

  lemma PatternText(literal: string, escape: string)
    requires escape == "'\\\\'"
    ensures Sql(Like) + " " + (literal + " " + ("ESCAPE" + " " + escape)) == "LIKE " + literal + ESCAPE_CLAUSE
  {
  }

  lemma ReadsNamed(name: string, tail: string, rest: string, lexemes: seq<Lexeme>)
    requires Reads(tail, rest, lexemes)
    ensures Reads(QuoteIdentifier(name) + " " + tail, rest, [Ident(name)] + lexemes)
  {
    hide Lexemes, QuoteIdentifier;
    SpaceDelimits(tail + rest);
    LexName(name, " " + (tail + rest));
    ReadsSpaced(QuoteIdentifier(name), tail, rest, [Ident(name)], lexemes);
  }

  lemma ReadsNullTest(condition: Condition, column: Column, rest: string)
    requires IsUnary(condition.operator) && Delimited(rest)
    ensures Reads(FilterPredicate(condition, column).value, rest, ConditionLexemes(condition, column))
  {
    hide Lexemes, QuoteIdentifier, Sql, OperatorLexemes;
    LexOperator(condition.operator, rest);
    ReadsNamed(column.name, Sql(condition.operator), rest, OperatorLexemes(condition.operator));
  }

  lemma ReadsList(condition: Condition, column: Column, rest: string)
    requires condition.operator.In? || condition.operator.NotIn?
    requires FilterPredicate(condition, column).Success?
    ensures Reads(FilterPredicate(condition, column).value, rest, ConditionLexemes(condition, column))
  {
    hide Lexemes, QuoteIdentifier, Sql, OperatorLexemes, ListText, ListItems, ListLexemes, OperandsOf;
    var operator, items := condition.operator, ListItems(condition.value);
    var text, inner := ListText(items, column).value, ListLexemes(OperandsOf(items, column));
    SpaceDelimits(rest);
    LexList(items, column, ")" + rest);
    ReadsParenthesised(text, rest, inner);
    ReadsOperator(operator, "(" + text + ")", rest, [Open] + inner + [Close]);
    ReadsNamed(column.name, Sql(operator) + " " + ("(" + text + ")"), rest,
               OperatorLexemes(operator) + ([Open] + inner + [Close]));
    assert OperatorLexemes(operator) + ([Open] + inner + [Close]) == OperatorLexemes(operator) + [Open] + inner + [Close];
    assert QuoteIdentifier(column.name) + " " + (Sql(operator) + " " + ("(" + text + ")"))
        == QuoteIdentifier(column.name) + " " + Sql(operator) + " (" + text + ")";
  }

  lemma ReadsRangeText(lower: string, upper: string, rest: string, low: Lexeme, high: Lexeme)
    requires Reads(lower, " " + ("AND " + upper + rest), [low]) && Reads(upper, rest, [high])
    ensures Reads("BETWEEN " + lower + " AND " + upper, rest, [Bare("BETWEEN"), low, Bare("AND"), high])
  {
    hide Lexemes, Delimited;
    SpaceDelimits(upper + rest);
    LexBare("AND", " " + (upper + rest));
    var tail := "AND" + " " + upper;
    ReadsSpaced("AND", upper, rest, [Bare("AND")], [high]);
    assert "AND " + upper + rest == tail + rest;
    ReadsSpaced(lower, tail, rest, [low], [Bare("AND")] + [high]);
    ReadsOperator(Between, lower + " " + tail, rest, [low] + ([Bare("AND")] + [high]));
    assert Sql(Between) + " " + (lower + " " + tail) == "BETWEEN " + lower + " AND " + upper;
    assert OperatorLexemes(Between) + ([low] + ([Bare("AND")] + [high])) == [Bare("BETWEEN"), low, Bare("AND"), high];
  }

  lemma ReadsRange(condition: Condition, column: Column, rest: string)
    requires condition.operator.Between? && FilterPredicate(condition, column).Success? && Delimited(rest)
    ensures Reads(FilterPredicate(condition, column).value, rest, ConditionLexemes(condition, column))
  {
    hide Lexemes, QuoteIdentifier, Sql, ValueLiteral, OperandOf, LexemeOf, Delimited;
    var bounds := SplitList(condition.value);
    var lower, upper := ValueLiteral(bounds[0], column).value, ValueLiteral(bounds[1], column).value;
    var low, high := LexemeOf(OperandOf(bounds[0], column)), LexemeOf(OperandOf(bounds[1], column));
    SpaceDelimits("AND " + upper + rest);
    LexLiteral(bounds[0], column, " " + ("AND " + upper + rest));
    LexLiteral(bounds[1], column, rest);
    ReadsRangeText(lower, upper, rest, low, high);
    ReadsNamed(column.name, "BETWEEN " + lower + " AND " + upper, rest, [Bare("BETWEEN"), low, Bare("AND"), high]);
    assert QuoteIdentifier(column.name) + " " + ("BETWEEN " + lower + " AND " + upper)
        == QuoteIdentifier(column.name) + " BETWEEN " + lower + " AND " + upper;
  }

  lemma ReadsSubstring(condition: Condition, column: Column, rest: string)
    requires condition.operator.Contains? || condition.operator.StartsWith? || condition.operator.EndsWith?
    requires FilterPredicate(condition, column).Success? && Delimited(rest)
    ensures Reads(FilterPredicate(condition, column).value, rest, ConditionLexemes(condition, column))
  {
    hide Lexemes, QuoteIdentifier, MysqlStringLiteral, LikePattern, Delimited;
    var pattern := LikePattern(condition.operator, condition.value);
    ReadsPattern(pattern, rest);
    ReadsNamed(column.name, "LIKE " + MysqlStringLiteral(pattern) + ESCAPE_CLAUSE, rest,
               [Bare("LIKE"), Str(pattern), Bare("ESCAPE"), Str("\\")]);
    assert QuoteIdentifier(column.name) + " " + ("LIKE " + MysqlStringLiteral(pattern) + ESCAPE_CLAUSE)
        == QuoteIdentifier(column.name) + " LIKE " + MysqlStringLiteral(pattern) + ESCAPE_CLAUSE;
  }

  /** A predicate of an operator followed by one literal. */
  lemma ReadsComparison(column: Column, operator: Operator, literal: string, rest: string, lexeme: Lexeme)
    requires Reads(literal, rest, [lexeme])
    ensures Reads(QuoteIdentifier(column.name) + " " + Sql(operator) + " " + literal, rest,
                  [Ident(column.name)] + (OperatorLexemes(operator) + [lexeme]))
  {
    hide Lexemes, QuoteIdentifier, Sql, OperatorLexemes;
    ReadsOperator(operator, literal, rest, [lexeme]);
    ReadsNamed(column.name, Sql(operator) + " " + literal, rest, OperatorLexemes(operator) + [lexeme]);
    assert QuoteIdentifier(column.name) + " " + (Sql(operator) + " " + literal)
        == QuoteIdentifier(column.name) + " " + Sql(operator) + " " + literal;
  }

  /** The text of one predicate reads back as its lexemes, whatever the user's text contains. */
  lemma ReadsCondition(condition: Condition, column: Column, rest: string)
    requires FilterPredicate(condition, column).Success? && Delimited(rest)
    ensures Reads(FilterPredicate(condition, column).value, rest, ConditionLexemes(condition, column))
  {
    hide Lexemes, QuoteIdentifier, MysqlStringLiteral, Sql, OperatorLexemes, Delimited, ValueLiteral, LexemeOf, OperandOf;
    match condition.operator {
      case IsNull => ReadsNullTest(condition, column, rest);
      case IsNotNull => ReadsNullTest(condition, column, rest);
      case In => ReadsList(condition, column, rest);
      case NotIn => ReadsList(condition, column, rest);
      case Between => ReadsRange(condition, column, rest);
      case Contains => ReadsSubstring(condition, column, rest);
      case StartsWith => ReadsSubstring(condition, column, rest);
      case EndsWith => ReadsSubstring(condition, column, rest);
      case Like =>
        LexText(condition.value, rest);
        ReadsComparison(column, Like, MysqlStringLiteral(condition.value), rest, Str(condition.value));
      case NotLike =>
        LexText(condition.value, rest);
        ReadsComparison(column, NotLike, MysqlStringLiteral(condition.value), rest, Str(condition.value));
      case _ =>
        LexLiteral(condition.value, column, rest);
        ReadsComparison(column, condition.operator, ValueLiteral(condition.value, column).value, rest,
                        LexemeOf(OperandOf(condition.value, column)));
    }
  }

  // ----- parsing one predicate

  /** What may stand behind a predicate in a clause. */
  predicate Follows(rest: seq<Lexeme>)
  {
    rest == [] || rest[0] == Close || rest[0] == Bare("AND") || rest[0] == Bare("OR")
  }

  lemma OperandIsReadBack(operand: Operand, ls: seq<Lexeme>, i: nat)
    requires IsWritable(operand) && i < |ls| && ls[i] == LexemeOf(operand)
    ensures ReadOperand(ls, i) == Some(operand)
  {
    hide IsNumericLiteral;
  }

  lemma LastOperandParses(operand: Operand, rest: seq<Lexeme>)
    requires IsWritable(operand)
    ensures ParseOperands([LexemeOf(operand), Close] + rest) == Some(Parsed([operand], rest))
  {
    hide IsWritable, LexemeOf, ReadOperand;
    var ls := [LexemeOf(operand), Close] + rest;
    OperandIsReadBack(operand, ls, 0);
    assert ls[2..] == rest;
  }

  lemma OperandParses(operand: Operand, ls: seq<Lexeme>)
    requires IsWritable(operand) && ParseOperands(ls).Some?
    ensures ParseOperands([LexemeOf(operand), Comma] + ls) ==
            Some(Parsed([operand] + ParseOperands(ls).value.value, ParseOperands(ls).value.rest))
  {
    hide IsWritable, LexemeOf, ReadOperand;
    var all := [LexemeOf(operand), Comma] + ls;
    OperandIsReadBack(operand, all, 0);
    assert all[2..] == ls;
  }

  lemma {:induction false} ListParses(operands: seq<Operand>, rest: seq<Lexeme>)
    requires operands != [] && forall o :: o in operands ==> IsWritable(o)
    ensures ParseOperands(ListLexemes(operands) + [Close] + rest) == Some(Parsed(operands, rest))
    decreases |operands|
  {
    hide IsWritable, LexemeOf, ParseOperands, ListLexemes;
    ListBegins(operands, rest);
    if |operands| == 1 {
      LastOperandParses(operands[0], rest);
      assert operands == [operands[0]];
    } else {
      ListParses(operands[1..], rest);
      OperandParses(operands[0], ListLexemes(operands[1..]) + [Close] + rest);
      assert operands == [operands[0]] + operands[1..];
    }
  }

  lemma ListBegins(operands: seq<Operand>, rest: seq<Lexeme>)
    requires operands != []
    ensures ListLexemes(operands) + [Close] + rest ==
            if |operands| == 1 then [LexemeOf(operands[0]), Close] + rest
            else [LexemeOf(operands[0]), Comma] + (ListLexemes(operands[1..]) + [Close] + rest)
  {
    hide LexemeOf;
  }

  lemma InParses(name: string, negated: bool, operands: seq<Operand>, rest: seq<Lexeme>)
    requires operands != [] && forall o :: o in operands ==> IsWritable(o)
    ensures ParseIn(name, negated, [Open] + (ListLexemes(operands) + [Close] + rest)) ==
            Some(Parsed(OneOf(name, negated, operands), rest))
  {
    hide ParseOperands, ListLexemes, IsWritable;
    var list := ListLexemes(operands) + [Close] + rest;
    ListParses(operands, rest);
    assert ([Open] + list)[1..] == list;
  }

  /** The words in front of a list. */
  lemma InBegins(name: string, ls: seq<Lexeme>)
    ensures ParseTest([Ident(name), Bare("IN")] + ls) == ParseIn(name, false, ls)
    ensures ParseTest([Ident(name), Bare("NOT"), Bare("IN")] + ls) == ParseIn(name, true, ls)
  {
    hide ParseIn, ParseIs, ParseLike, ParseBetween, ReadOperand;
    assert ([Ident(name), Bare("IN")] + ls)[2..] == ls;
    assert ([Ident(name), Bare("NOT"), Bare("IN")] + ls)[3..] == ls;
  }

  lemma ListTestParses(name: string, negated: bool, operands: seq<Operand>, rest: seq<Lexeme>)
    requires operands != [] && forall o :: o in operands ==> IsWritable(o)
    ensures ParseTest([Ident(name)]
                      + (OperatorLexemes(if negated then NotIn else In) + [Open] + ListLexemes(operands) + [Close])
                      + rest)
         == Some(Parsed(OneOf(name, negated, operands), rest))
  {
    hide ParseTest, ParseIn, ParseOperands, ListLexemes, IsWritable;
    var list := [Open] + (ListLexemes(operands) + [Close] + rest);
    InParses(name, negated, operands, rest);
    InBegins(name, list);
    if negated {
      assert [Ident(name)] + (OperatorLexemes(NotIn) + [Open] + ListLexemes(operands) + [Close]) + rest
          == [Ident(name), Bare("NOT"), Bare("IN")] + list;
    } else {
      assert [Ident(name)] + (OperatorLexemes(In) + [Open] + ListLexemes(operands) + [Close]) + rest
          == [Ident(name), Bare("IN")] + list;
    }
  }

  lemma RangeTestParses(name: string, low: Operand, high: Operand, rest: seq<Lexeme>)
    requires IsWritable(low) && IsWritable(high)
    ensures ParseTest([Ident(name)] + [Bare("BETWEEN"), LexemeOf(low), Bare("AND"), LexemeOf(high)] + rest)
         == Some(Parsed(Within(name, low, high), rest))
  {
    hide LexemeOf, ReadOperand, IsWritable;
    var tail := [LexemeOf(low), Bare("AND"), LexemeOf(high)] + rest;
    var ls := [Ident(name)] + [Bare("BETWEEN"), LexemeOf(low), Bare("AND"), LexemeOf(high)] + rest;
    OperandIsReadBack(low, tail, 0);
    OperandIsReadBack(high, tail, 2);
    assert ls[2..] == tail && tail[3..] == rest;
  }

  lemma SubstringTestParses(name: string, pattern: string, rest: seq<Lexeme>)
    ensures ParseTest([Ident(name)] + [Bare("LIKE"), Str(pattern), Bare("ESCAPE"), Str("\\")] + rest)
         == Some(Parsed(Matches(name, false, pattern, "\\"), rest))
  {
    var tail := [Str(pattern), Bare("ESCAPE"), Str("\\")] + rest;
    var ls := [Ident(name)] + [Bare("LIKE"), Str(pattern), Bare("ESCAPE"), Str("\\")] + rest;
    assert ls[2..] == tail && tail[3..] == rest;
  }

  lemma LikeTestParses(name: string, negated: bool, pattern: string, rest: seq<Lexeme>)
    requires Follows(rest)
    ensures ParseTest([Ident(name)] + (OperatorLexemes(if negated then NotLike else Like) + [Str(pattern)]) + rest)
         == Some(Parsed(Matches(name, negated, pattern, "\\"), rest))
  {
    var tail := [Str(pattern)] + rest;
    assert tail[1..] == rest;
    assert ParseLike(name, negated, tail) == Some(Parsed(Matches(name, negated, pattern, "\\"), rest));
    if negated {
      var ls := [Ident(name)] + ([Bare("NOT"), Bare("LIKE")] + [Str(pattern)]) + rest;
      assert ls[3..] == tail;
    } else {
      var ls := [Ident(name)] + ([Bare("LIKE")] + [Str(pattern)]) + rest;
      assert ls[2..] == tail;
    }
  }

  lemma NullTestParses(name: string, negated: bool, rest: seq<Lexeme>)
    ensures ParseTest([Ident(name)] + OperatorLexemes(if negated then IsNotNull else IsNull) + rest)
         == Some(Parsed(NullTest(name, negated), rest))
  {
    hide ParseIs, ParseTest;
    NullBehindIs(name, rest);
    if negated {
      IsBegins(name, [Bare("NOT"), Bare("NULL")] + rest);
      assert [Ident(name)] + OperatorLexemes(IsNotNull) + rest == [Ident(name), Bare("IS")] + ([Bare("NOT"), Bare("NULL")] + rest);
    } else {
      IsBegins(name, [Bare("NULL")] + rest);
      assert [Ident(name)] + OperatorLexemes(IsNull) + rest == [Ident(name), Bare("IS")] + ([Bare("NULL")] + rest);
    }
  }

  lemma IsBegins(name: string, ls: seq<Lexeme>)
    ensures ParseTest([Ident(name), Bare("IS")] + ls) == ParseIs(name, ls)
  {
    hide ParseIn, ParseIs, ParseLike, ParseBetween, ReadOperand;
    assert ([Ident(name), Bare("IS")] + ls)[2..] == ls;
  }

  lemma NullBehindIs(name: string, rest: seq<Lexeme>)
    ensures ParseIs(name, [Bare("NULL")] + rest) == Some(Parsed(NullTest(name, false), rest))
    ensures ParseIs(name, [Bare("NOT"), Bare("NULL")] + rest) == Some(Parsed(NullTest(name, true), rest))
  {
    assert ([Bare("NULL")] + rest)[1..] == rest && ([Bare("NOT"), Bare("NULL")] + rest)[2..] == rest;
  }

  lemma ComparisonParses(name: string, operator: string, operand: Operand, rest: seq<Lexeme>)
    requires IsWritable(operand) && ComparisonOf(operator).Some?
    ensures ParseTest([Ident(name)] + ([Bare(operator)] + [LexemeOf(operand)]) + rest)
         == Some(Parsed(Compare(name, ComparisonOf(operator).value, operand), rest))
  {
    hide LexemeOf, ReadOperand, IsWritable;
    var ls := [Ident(name)] + ([Bare(operator)] + [LexemeOf(operand)]) + rest;
    OperandIsReadBack(operand, ls, 2);
    assert ls[3..] == rest;
  }

  lemma ListIsWritable(items: seq<string>, column: Column)
    requires items != [] && ListText(items, column).Success?
    ensures forall o :: o in OperandsOf(items, column) ==> IsWritable(o)
  {
    LexList(items, column, "");
  }

  /** The lexemes of one predicate parse to the test its condition asks for. */
  lemma TestParses(condition: Condition, column: Column, rest: seq<Lexeme>)
    requires FilterPredicate(condition, column).Success? && Follows(rest)
    ensures ParseTest(ConditionLexemes(condition, column) + rest) == Some(Parsed(TestOf(condition, column), rest))
  {
    hide ParseTest, ListText, ListItems, OperandsOf, ListLexemes, OperandOf, ValueLiteral, LexemeOf;
    hide IsWritable, LikePattern;
    var name, value := column.name, condition.value;
    match condition.operator {
      case IsNull => NullTestParses(name, false, rest);
      case IsNotNull => NullTestParses(name, true, rest);
      case In =>
        ListIsWritable(ListItems(value), column);
        ListTestParses(name, false, OperandsOf(ListItems(value), column), rest);
      case NotIn =>
        ListIsWritable(ListItems(value), column);
        ListTestParses(name, true, OperandsOf(ListItems(value), column), rest);
      case Between =>
        OperandIsWritable(SplitList(value)[0], column);
        OperandIsWritable(SplitList(value)[1], column);
        RangeTestParses(name, BoundOf(value, 0, column), BoundOf(value, 1, column), rest);
      case Contains => SubstringTestParses(name, LikePattern(Contains, value), rest);
      case StartsWith => SubstringTestParses(name, LikePattern(StartsWith, value), rest);
      case EndsWith => SubstringTestParses(name, LikePattern(EndsWith, value), rest);
      case Like => LikeTestParses(name, false, value, rest);
      case NotLike => LikeTestParses(name, true, value, rest);
      case _ =>
        OperandIsWritable(value, column);
        ComparisonParses(name, Sql(condition.operator), OperandOf(value, column), rest);
    }
  }
}
