/**
 What a compiled WHERE clause means.

 A reference reader turns the text back into a tree of tests: strings and identifiers are decoded as in
 MysqlText, AND binds tighter than OR (MySQL 8.4 Reference Manual, section 14.4.1 "Operator
 Precedence"), and the AND of a BETWEEN belongs to it. The tree of every compiled clause is the strict
 left-to-right fold of the conditions.
 */
module FilterMeaning {
  import opened Wrappers
  import opened FilterText
  import opened MysqlText
  import opened TableFilter
  import Text

  // ----- reading lexemes

  datatype Lexeme = Ident(name: string) | Str(text: string) | Bare(run: string) | Open | Close | Comma

  /** What the start of a text reads as, and its width. */
  datatype Piece = Piece(lexemes: seq<Lexeme>, width: nat)

  predicate IsBreak(c: char) { c == ' ' || c == '`' || c == '\'' || c == '(' || c == ')' || c == ',' }

  function RunWidth(s: string): (width: nat)
    ensures width <= |s|
  {
    if s == [] || IsBreak(s[0]) then 0 else 1 + RunWidth(s[1..])
  }

  function FirstPiece(s: string): Option<Piece>
    requires s != []
  {
    if s[0] == ' ' then Some(Piece([], 1))
    else if s[0] == '(' then Some(Piece([Open], 1))
    else if s[0] == ')' then Some(Piece([Close], 1))
    else if s[0] == ',' then Some(Piece([Comma], 1))
    else if s[0] == '`' then
      match ReadQuoted(s, false)
      case None => None
      case Some(q) => Some(Piece([Ident(q.text)], q.length))
    else if s[0] == '\'' then
      match ReadQuoted(s, true)
      case None => None
      case Some(q) => Some(Piece([Str(q.text)], q.length))
    else Some(Piece([Bare(s[..RunWidth(s)])], RunWidth(s)))
  }

  function Onto(lexemes: seq<Lexeme>, rest: Option<seq<Lexeme>>): Option<seq<Lexeme>>
  {
    match rest
    case None => None
    case Some(more) => Some(lexemes + more)
  }

  function Lexemes(s: string): Option<seq<Lexeme>>
    decreases |s|
  {
    if s == [] then Some([])
    else
      match FirstPiece(s)
      case None => None
      case Some(piece) =>
        if 0 < piece.width <= |s| then Onto(piece.lexemes, Lexemes(s[piece.width..])) else None
  }

  // ----- reading tests and their connectors

  datatype Operand = TextOperand(text: string) | NumberOperand(literal: string)

  datatype Comparison = Same | Different | Above | AtLeast | Below | AtMost

  datatype Test =
    | Compare(column: string, comparison: Comparison, operand: Operand)
    | Matches(column: string, negated: bool, pattern: string, escape: string)
    | OneOf(column: string, negated: bool, operands: seq<Operand>)
    | Within(column: string, low: Operand, high: Operand)
    | NullTest(column: string, negated: bool)

  datatype Tree = Leaf(test: Test) | Both(left: Tree, right: Tree) | Either(left: Tree, right: Tree)

  datatype Parsed<T> = Parsed(value: T, rest: seq<Lexeme>)

  predicate At(ls: seq<Lexeme>, i: nat, run: string) { i < |ls| && ls[i] == Bare(run) }

  function ReadOperand(ls: seq<Lexeme>, i: nat): Option<Operand>
    ensures ReadOperand(ls, i).Some? ==> i < |ls|
  {
    if i >= |ls| then None
    else
      match ls[i]
      case Str(text) => Some(TextOperand(text))
      case Bare(run) => if IsNumericLiteral(run) then Some(NumberOperand(run)) else None
      case _ => None
  }

  /** `operand (, operand)* )` */
  function ParseOperands(ls: seq<Lexeme>): (p: Option<Parsed<seq<Operand>>>)
    ensures p.Some? ==> |p.value.rest| < |ls|
  {
    match ReadOperand(ls, 0)
    case None => None
    case Some(operand) =>
      if |ls| == 1 then None
      else if ls[1] == Close then Some(Parsed([operand], ls[2..]))
      else if ls[1] == Comma then
        match ParseOperands(ls[2..])
        case None => None
        case Some(more) => Some(Parsed([operand] + more.value, more.rest))
      else None
  }

  function ParseIn(name: string, negated: bool, ls: seq<Lexeme>): (p: Option<Parsed<Test>>)
    ensures p.Some? ==> |p.value.rest| < |ls|
  {
    if ls == [] || ls[0] != Open then None
    else
      match ParseOperands(ls[1..])
      case None => None
      case Some(list) => Some(Parsed(OneOf(name, negated, list.value), list.rest))
  }

  function ParseLike(name: string, negated: bool, ls: seq<Lexeme>): (p: Option<Parsed<Test>>)
    ensures p.Some? ==> |p.value.rest| < |ls|
  {
    if ls == [] || !ls[0].Str? then None
    else if |ls| > 2 && At(ls, 1, "ESCAPE") && ls[2].Str? then
      Some(Parsed(Matches(name, negated, ls[0].text, ls[2].text), ls[3..]))
    else Some(Parsed(Matches(name, negated, ls[0].text, "\\"), ls[1..]))
  }

  function ParseBetween(name: string, ls: seq<Lexeme>): (p: Option<Parsed<Test>>)
    ensures p.Some? ==> |p.value.rest| < |ls|
  {
    if ReadOperand(ls, 0).Some? && At(ls, 1, "AND") && ReadOperand(ls, 2).Some? then
      Some(Parsed(Within(name, ReadOperand(ls, 0).value, ReadOperand(ls, 2).value), ls[3..]))
    else None
  }

  function ParseIs(name: string, ls: seq<Lexeme>): (p: Option<Parsed<Test>>)
    ensures p.Some? ==> |p.value.rest| < |ls|
  {
    if At(ls, 0, "NULL") then Some(Parsed(NullTest(name, false), ls[1..]))
    else if At(ls, 0, "NOT") && At(ls, 1, "NULL") then Some(Parsed(NullTest(name, true), ls[2..]))
    else None
  }

  /** MySQL 8.4 Reference Manual, section 14.4.2 "Comparison Functions and Operators". */
  function ComparisonOf(run: string): Option<Comparison>
  {
    if run == "=" then Some(Same)
    else if run == "!=" then Some(Different)
    else if run == ">" then Some(Above)
    else if run == ">=" then Some(AtLeast)
    else if run == "<" then Some(Below)
    else if run == "<=" then Some(AtMost)
    else None
  }

  function ParseTest(ls: seq<Lexeme>): (p: Option<Parsed<Test>>)
    ensures p.Some? ==> |p.value.rest| < |ls|
  {
    if |ls| < 2 || !ls[0].Ident? || !ls[1].Bare? then None
    else
      var name, operator := ls[0].name, ls[1].run;
      if operator == "IS" then ParseIs(name, ls[2..])
      else if operator == "LIKE" then ParseLike(name, false, ls[2..])
      else if operator == "IN" then ParseIn(name, false, ls[2..])
      else if operator == "BETWEEN" then ParseBetween(name, ls[2..])
      else if operator == "NOT" && At(ls, 2, "LIKE") then ParseLike(name, true, ls[3..])
      else if operator == "NOT" && At(ls, 2, "IN") then ParseIn(name, true, ls[3..])
      else if ComparisonOf(operator).Some? && ReadOperand(ls, 2).Some? then
        Some(Parsed(Compare(name, ComparisonOf(operator).value, ReadOperand(ls, 2).value), ls[3..]))
      else None
  }

  function ParseFactor(ls: seq<Lexeme>): (p: Option<Parsed<Tree>>)
    ensures p.Some? ==> |p.value.rest| < |ls|
    decreases |ls|, 0
  {
    if ls != [] && ls[0] == Open then
      match ParseExpression(ls[1..])
      case None => None
      case Some(inner) =>
        if inner.rest != [] && inner.rest[0] == Close then Some(Parsed(inner.value, inner.rest[1..])) else None
    else
      match ParseTest(ls)
      case None => None
      case Some(test) => Some(Parsed(Leaf(test.value), test.rest))
  }

  /** Further factors joined with AND. */
  function ParseAnds(left: Tree, ls: seq<Lexeme>): (p: Option<Parsed<Tree>>)
    ensures p.Some? ==> |p.value.rest| <= |ls|
    decreases |ls|, 1
  {
    if !At(ls, 0, "AND") then Some(Parsed(left, ls))
    else
      match ParseFactor(ls[1..])
      case None => None
      case Some(factor) => ParseAnds(Both(left, factor.value), factor.rest)
  }

  function ParseTerm(ls: seq<Lexeme>): (p: Option<Parsed<Tree>>)
    ensures p.Some? ==> |p.value.rest| < |ls|
    decreases |ls|, 2
  {
    match ParseFactor(ls)
    case None => None
    case Some(factor) => ParseAnds(factor.value, factor.rest)
  }

  /** Further terms joined with OR. */
  function ParseOrs(left: Tree, ls: seq<Lexeme>): (p: Option<Parsed<Tree>>)
    ensures p.Some? ==> |p.value.rest| <= |ls|
    decreases |ls|, 3
  {
    if !At(ls, 0, "OR") then Some(Parsed(left, ls))
    else
      match ParseTerm(ls[1..])
      case None => None
      case Some(term) => ParseOrs(Either(left, term.value), term.rest)
  }

  function ParseExpression(ls: seq<Lexeme>): (p: Option<Parsed<Tree>>)
    ensures p.Some? ==> |p.value.rest| < |ls|
    decreases |ls|, 4
  {
    match ParseTerm(ls)
    case None => None
    case Some(term) => ParseOrs(term.value, term.rest)
  }

  /** A whole WHERE clause. */
  function ReadWhere(s: string): Option<Tree>
  {
    match Lexemes(s)
    case None => None
    case Some(ls) =>
      if !At(ls, 0, "WHERE") then None
      else
        match ParseExpression(ls[1..])
        case None => None
        case Some(tree) => if tree.rest == [] then Some(tree.value) else None
  }

  // ----- what the conditions ask for

  function OperandOf(value: string, column: Column): Operand
  {
    var base := BaseType(column.columnType);
    if base in NUMERIC then NumberOperand(Text.Trim(value))
    else if base in TEMPORAL then TextOperand(Text.Trim(value))
    else TextOperand(value)
  }

  function OperandsOf(items: seq<string>, column: Column): (operands: seq<Operand>)
    ensures |operands| == |items|
  {
    if items == [] then [] else [OperandOf(items[0], column)] + OperandsOf(items[1..], column)
  }

  function BoundOf(value: string, k: nat, column: Column): Operand
  {
    OperandOf(if k < |SplitList(value)| then SplitList(value)[k] else "", column)
  }

  function TestOf(condition: Condition, column: Column): Test
  {
    var name, operator, value := column.name, condition.operator, condition.value;
    match operator
    case IsNull => NullTest(name, false)
    case IsNotNull => NullTest(name, true)
    case In => OneOf(name, false, OperandsOf(ListItems(value), column))
    case NotIn => OneOf(name, true, OperandsOf(ListItems(value), column))
    case Between => Within(name, BoundOf(value, 0, column), BoundOf(value, 1, column))
    case Contains => Matches(name, false, LikePattern(operator, value), "\\")
    case StartsWith => Matches(name, false, LikePattern(operator, value), "\\")
    case EndsWith => Matches(name, false, LikePattern(operator, value), "\\")
    case Like => Matches(name, false, value, "\\")
    case NotLike => Matches(name, true, value, "\\")
    case Equal => Compare(name, Same, OperandOf(value, column))
    case NotEqual => Compare(name, Different, OperandOf(value, column))
    case Greater => Compare(name, Above, OperandOf(value, column))
    case GreaterOrEqual => Compare(name, AtLeast, OperandOf(value, column))
    case Less => Compare(name, Below, OperandOf(value, column))
    case LessOrEqual => Compare(name, AtMost, OperandOf(value, column))
  }

  // ----- pieces of text read back

  /** A token's text may end before this. */
  predicate Delimited(rest: string) { rest == [] || rest[0] == ' ' || rest[0] == ')' || rest[0] == ',' }

  predicate IsRun(run: string) { run != [] && forall i :: 0 <= i < |run| ==> !IsBreak(run[i]) }

  lemma LexStep(text: string, rest: string, lexemes: seq<Lexeme>)
    requires text != [] && FirstPiece(text + rest) == Some(Piece(lexemes, |text|))
    ensures Lexemes(text + rest) == Onto(lexemes, Lexemes(rest))
  {
    assert (text + rest)[|text|..] == rest;
  }

  lemma LexName(name: string, rest: string)
    requires Delimited(rest)
    ensures Lexemes(QuoteIdentifier(name) + rest) == Onto([Ident(name)], Lexemes(rest))
  {
    hide ReadQuoted, Lexemes;
    IdentifierRoundTrip(name, rest);
    LexStep(QuoteIdentifier(name), rest, [Ident(name)]);
  }

  lemma LexText(value: string, rest: string)
    requires Delimited(rest)
    ensures Lexemes(MysqlStringLiteral(value) + rest) == Onto([Str(value)], Lexemes(rest))
  {
    hide ReadQuoted, Lexemes, LiteralBody;
    LiteralRoundTrip(value, rest);
    LexStep(MysqlStringLiteral(value), rest, [Str(value)]);
  }

  lemma {:induction false} RunIsMeasured(run: string, rest: string)
    requires forall i :: 0 <= i < |run| ==> !IsBreak(run[i])
    requires Delimited(rest)
    ensures RunWidth(run + rest) == |run|
  {
    if run == [] {
      assert run + rest == rest;
    } else {
      assert (run + rest)[1..] == run[1..] + rest;
      RunIsMeasured(run[1..], rest);
    }
  }

  lemma LexBare(run: string, rest: string)
    requires IsRun(run) && Delimited(rest)
    ensures Lexemes(run + rest) == Onto([Bare(run)], Lexemes(rest))
  {
    hide Lexemes;
    RunIsMeasured(run, rest);
    assert (run + rest)[0] == run[0] && (run + rest)[..|run|] == run;
    LexStep(run, rest, [Bare(run)]);
  }

  lemma LexSpace(rest: string)
    ensures Lexemes(" " + rest) == Lexemes(rest)
  {
    LexStep(" ", rest, []);
    OntoNothing(Lexemes(rest));
  }

  lemma LexPunctuation(rest: string)
    ensures Lexemes("(" + rest) == Onto([Open], Lexemes(rest))
    ensures Lexemes(")" + rest) == Onto([Close], Lexemes(rest))
    ensures Lexemes("," + rest) == Onto([Comma], Lexemes(rest))
  {
    hide Lexemes;
    LexStep("(", rest, [Open]);
    LexStep(")", rest, [Close]);
    LexStep(",", rest, [Comma]);
  }

  lemma OntoNothing(rest: Option<seq<Lexeme>>)
    ensures Onto([], rest) == rest
  {
    if rest.Some? {
      assert [] + rest.value == rest.value;
    }
  }

  lemma OntoOnto(left: seq<Lexeme>, right: seq<Lexeme>, rest: Option<seq<Lexeme>>)
    ensures Onto(left, Onto(right, rest)) == Onto(left + right, rest)
  {
    if rest.Some? {
      assert left + right + rest.value == left + (right + rest.value);
    }
  }
}
