/**
 What the emitted clause answers for the rows of a table: every condition holds of a cell exactly when its
 operator says so of the user's text, and is unknown on NULL; and which conditions compile at all.
 */
module FilterAnswers {
  import opened Wrappers
  import opened FilterText
  import opened LikePatterns
  import opened TableFilter
  import opened FilterMeaning
  import opened FilterPredicates
  import opened FilterCorrectness
  import Text

  // ----- column types

  datatype Kind = NumericKind | TemporalKind | JsonKind | TextKind | NoKind

  predicate IsNumericWord(word: string)
  {
    || word == "tinyint" || word == "smallint" || word == "mediumint" || word == "int" || word == "integer"
    || word == "bigint" || word == "decimal" || word == "numeric" || word == "float" || word == "double"
    || word == "real" || word == "year" || word == "bit"
  }

  predicate IsTemporalWord(word: string)
  {
    word == "date" || word == "time" || word == "datetime" || word == "timestamp"
  }

  predicate IsBinaryWord(word: string)
  {
    || word == "tinyblob" || word == "blob" || word == "mediumblob" || word == "longblob"
    || word == "binary" || word == "varbinary"
  }

  predicate IsSpatialWord(word: string)
  {
    || word == "geometry" || word == "point" || word == "linestring" || word == "polygon" || word == "multipoint"
    || word == "multilinestring" || word == "multipolygon" || word == "geometrycollection"
  }

  function KindOfWord(word: string): Kind
  {
    if IsBinaryWord(word) || IsSpatialWord(word) then NoKind
    else if IsNumericWord(word) then NumericKind
    else if IsTemporalWord(word) then TemporalKind
    else if word == "json" then JsonKind
    else TextKind
  }

  /** The small letters of `word`, each in either case. */
  predicate IsSpelling(written: string, word: string)
  {
    |written| == |word| &&
    forall i :: 0 <= i < |word| ==>
      'a' <= word[i] <= 'z' && (written[i] == word[i] || written[i] as int == word[i] as int - 32)
  }

  /** A type begins with the word, after whitespace, and goes on with anything but a letter. */
  predicate IsTyped(columnType: string, word: string, before: string, written: string, behind: string)
  {
    && columnType == before + written + behind && Text.IsBlank(before) && IsSpelling(written, word)
    && (behind != [] ==> !('a' <= behind[0] <= 'z') && !('A' <= behind[0] <= 'Z'))
    && (word == [] && behind != [] ==> !Text.IsWhitespace(behind[0]))
  }

  lemma {:induction false} LeadingLettersOf(written: string, word: string, behind: string)
    requires IsSpelling(written, word)
    requires behind != [] ==> !('a' <= behind[0] <= 'z') && !('A' <= behind[0] <= 'Z')
    ensures LeadingLetters(written + behind) == word
  {
    var s := written + behind;
    if written == [] {
      assert s == behind;
    } else {
      assert s[0] == written[0] && s[1..] == written[1..] + behind;
      assert IsSpelling(written[1..], word[1..]);
      LeadingLettersOf(written[1..], word[1..], behind);
      assert LowerChar(s[0]) == word[0];
    }
  }

  lemma LetterIsNoBlank(c: char)
    requires 'a' <= c <= 'z' || 'A' <= c <= 'Z'
    ensures !Text.IsWhitespace(c)
  {
  }

  /** The word that decides about a column is the one its type begins with. */
  lemma TypeWordIs(columnType: string, word: string, before: string, written: string, behind: string)
    requires IsTyped(columnType, word, before, written, behind)
    ensures BaseType(columnType) == word
  {
    hide Text.IsWhitespace, Text.Trim, IsSpelling, LeadingLetters;
    var tail := Text.TrimEnd(behind);
    var blank := Text.TrimEndSplits(behind);
    SpelledFirst(written, word);
    if word == [] && tail == [] {
      BlankIsBlank(before, written, behind, tail, blank);
      assert columnType == (before + behind) + [] + [];
      Text.TrimIs(before + behind, [], []);
      LeadingLettersOf([], [], []);
    } else {
      assert columnType == before + (written + tail) + blank;
      TightEnds(written, tail, word);
      Text.TrimIs(before, written + tail, blank);
      if tail != [] {
        assert behind[0] == tail[0];
      }
      LeadingLettersOf(written, word, tail);
    }
  }

  lemma SpelledFirst(written: string, word: string)
    requires IsSpelling(written, word)
    ensures |written| == |word|
    ensures written != [] ==> !Text.IsWhitespace(written[0]) && !Text.IsWhitespace(written[|written| - 1])
    ensures word == [] ==> IsSpelling([], [])
  {
    if written != [] {
      LetterIsNoBlank(written[0]);
      LetterIsNoBlank(written[|written| - 1]);
    }
  }

  lemma BlankIsBlank(before: string, written: string, behind: string, tail: string, blank: string)
    requires written == [] && tail == [] && behind == tail + blank && Text.IsBlank(before) && Text.IsBlank(blank)
    ensures Text.IsBlank(before + behind) && before + written + behind == before + behind
    ensures IsSpelling([], [])
  {
    hide Text.IsWhitespace;
    assert behind == blank;
  }

  lemma TightEnds(written: string, tail: string, word: string)
    requires written != [] ==> !Text.IsWhitespace(written[0]) && !Text.IsWhitespace(written[|written| - 1])
    requires tail != [] ==> !Text.IsWhitespace(tail[|tail| - 1])
    requires written == [] && tail != [] ==> !Text.IsWhitespace(tail[0])
    ensures Text.IsTight(written + tail)
  {
    hide Text.IsWhitespace;
    if tail != [] {
      assert (written + tail)[|written + tail| - 1] == tail[|tail| - 1];
    }
  }

  /** Every type begins with some word. */
  lemma {:induction false} LettersSplit(s: string) returns (written: string, behind: string)
    ensures s == written + behind && IsSpelling(written, LeadingLetters(s))
    ensures behind != [] ==> !('a' <= behind[0] <= 'z') && !('A' <= behind[0] <= 'Z')
  {
    if s == [] || !IsAsciiLetter(s[0]) {
      written, behind := [], s;
    } else {
      var w, b := LettersSplit(s[1..]);
      written, behind := [s[0]] + w, b;
      assert s == [s[0]] + s[1..];
    }
  }

  lemma TypeHasWord(columnType: string) returns (before: string, written: string, behind: string)
    ensures IsTyped(columnType, BaseType(columnType), before, written, behind)
  {
    hide Text.IsWhitespace, Text.Trim, IsSpelling, LeadingLetters;
    var front, back := Text.TrimSplits(columnType);
    var trimmed := Text.Trim(columnType);
    var w, b := LettersSplit(trimmed);
    before, written := front, w;
    SpelledFirst(w, LeadingLetters(trimmed));
    if trimmed == [] {
      before, behind := front + back, [];
      assert w == [] && b == [];
    } else {
      behind := b + back;
      assert columnType == before + written + behind;
      if b == [] && back != [] {
        BlankIsNoLetter(back[0]);
      }
      if w == [] {
        assert b[0] == trimmed[0];
      }
    }
  }

  lemma BlankIsNoLetter(c: char)
    requires Text.IsWhitespace(c)
    ensures !('a' <= c <= 'z') && !('A' <= c <= 'Z')
  {
  }

  function KindOf(columnType: string): Kind { KindOfWord(BaseType(columnType)) }

  lemma NumericListIs(word: string)
    ensures word in NUMERIC <==> IsNumericWord(word)
  {
  }

  lemma TemporalListIs(word: string)
    ensures word in TEMPORAL <==> IsTemporalWord(word)
  {
  }

  lemma UnfilterableListIs(word: string)
    ensures word in UNFILTERABLE <==> IsBinaryWord(word) || IsSpatialWord(word)
  {
  }

  /** The lists of the source, in the order in which it asks them, against the table of kinds. */
  lemma ListsAreKinds(word: string)
    ensures word in UNFILTERABLE <==> KindOfWord(word).NoKind?
    ensures word !in UNFILTERABLE ==> (word in NUMERIC <==> KindOfWord(word).NumericKind?)
    ensures word !in UNFILTERABLE && word !in NUMERIC ==>
              (word in TEMPORAL <==> KindOfWord(word).TemporalKind?)
    ensures word !in UNFILTERABLE && word !in NUMERIC && word !in TEMPORAL ==>
              (word == "json" <==> KindOfWord(word).JsonKind?)
  {
    hide IsBinaryWord, IsSpatialWord, IsNumericWord, IsTemporalWord;
    NumericListIs(word);
    TemporalListIs(word);
    UnfilterableListIs(word);
  }

  /** Which comparisons make sense for a kind. */
  predicate Suits(kind: Kind, operator: Operator)
  {
    match kind
    case NoKind => false
    case TextKind => !IsOrder(operator)
    case JsonKind => !IsOrder(operator) && !IsPattern(operator)
    case _ => !IsPattern(operator)
  }

  predicate IsOrder(operator: Operator)
  {
    operator.Greater? || operator.GreaterOrEqual? || operator.Less? || operator.LessOrEqual? || operator.Between?
  }

  predicate IsPattern(operator: Operator)
  {
    operator.Like? || operator.NotLike? || operator.Contains? || operator.StartsWith? || operator.EndsWith?
  }

  lemma OperatorListsAre(operator: Operator)
    ensures operator in ORDERED_OPERATORS <==> !IsPattern(operator)
    ensures operator in TEXT_OPERATORS <==> !IsOrder(operator)
    ensures operator in EQUALITY_OPERATORS <==> !IsOrder(operator) && !IsPattern(operator)
  {
    match operator {
      case _ =>
    }
  }

  /** An operator is offered for a column exactly when it makes sense for the kind of the column's type. */
  lemma OperatorsAreSuitable(columnType: string, operator: Operator)
    ensures operator in OperatorsFor(columnType) <==> Suits(KindOf(columnType), operator)
  {
    hide BaseType, KindOfWord, IsOrder, IsPattern;
    ListsAreKinds(BaseType(columnType));
    OperatorListsAre(operator);
  }

  /** An operand as the kind of its column reads it. */
  function Meant(kind: Kind, value: string): Operand
  {
    match kind
    case NumericKind => NumberOperand(Text.Trim(value))
    case TemporalKind => TextOperand(Text.Trim(value))
    case _ => TextOperand(value)
  }

  lemma OperandIsMeant(value: string, column: Column)
    requires OperatorsFor(column.columnType) != {}
    ensures OperandOf(value, column) == Meant(KindOf(column.columnType), value)
  {
    hide BaseType, KindOfWord;
    ListsAreKinds(BaseType(column.columnType));
  }

  // ----- answers

  /** What a cell holds, as text and as a place in its column's order. */
  datatype Cell = Cell(text: string, place: real)

  /** Where the operands of a column stand in its order. */
  type Places = (string, Operand) -> real

  type Row = string -> Option<Cell>

  function Decided(holds: bool): Truth { if holds then True else False }

  predicate Compares(comparison: Comparison, left: real, right: real)
  {
    match comparison
    case Same => left == right
    case Different => left != right
    case Above => left > right
    case AtLeast => left >= right
    case Below => left < right
    case AtMost => left <= right
  }

  /** The value of a test on a row; a missing cell is NULL. */
  ghost function Answer(test: Test, row: Row, places: Places): Truth
  {
    match row(test.column)
    case None => if test.NullTest? then Decided(!test.negated) else Unknown
    case Some(cell) =>
      match test
      case Compare(column, comparison, operand) => Decided(Compares(comparison, cell.place, places(column, operand)))
      case Matches(_, negated, pattern, escape) =>
        if |escape| == 1 then Decided(LikePatterns.Like(pattern, escape[0], cell.text) != negated) else Unknown
      case OneOf(column, negated, operands) =>
        Decided((exists o :: o in operands && cell.place == places(column, o)) != negated)
      case Within(column, low, high) => Decided(places(column, low) <= cell.place <= places(column, high))
      case NullTest(_, negated) => Decided(negated)
  }

  /** The items a list asks for: what stands between its commas, trimmed, unless that is blank. */
  ghost predicate IsItem(value: string, item: string)
  {
    item != "" && exists k :: 0 <= k < |SplitList(value)| && Text.Trim(SplitList(value)[k]) == item
  }

  /** What a condition asks of a cell, by its operator. */
  ghost predicate Asks(condition: Condition, column: Column, cell: Cell, places: Places)
  {
    var kind, value := KindOf(column.columnType), condition.value;
    match condition.operator
    case Equal => cell.place == places(column.name, Meant(kind, value))
    case NotEqual => cell.place != places(column.name, Meant(kind, value))
    case Greater => cell.place > places(column.name, Meant(kind, value))
    case GreaterOrEqual => cell.place >= places(column.name, Meant(kind, value))
    case Less => cell.place < places(column.name, Meant(kind, value))
    case LessOrEqual => cell.place <= places(column.name, Meant(kind, value))
    case Like => LikePatterns.Like(value, '\\', cell.text)
    case NotLike => !LikePatterns.Like(value, '\\', cell.text)
    case Contains => exists k: nat :: OccursAt(value, cell.text, k)
    case StartsWith => value <= cell.text
    case EndsWith => |value| <= |cell.text| && cell.text[|cell.text| - |value|..] == value
    case In => exists item :: IsItem(value, item) && cell.place == places(column.name, Meant(kind, item))
    case NotIn => !exists item :: IsItem(value, item) && cell.place == places(column.name, Meant(kind, item))
    case Between =>
      |SplitList(value)| == 2 &&
      places(column.name, Meant(kind, SplitList(value)[0])) <= cell.place <=
      places(column.name, Meant(kind, SplitList(value)[1]))
    case IsNull => false
    case IsNotNull => true
  }

  ghost function Asked(condition: Condition, column: Column, row: Row, places: Places): Truth
  {
    match row(column.name)
    case Some(cell) => Decided(Asks(condition, column, cell, places))
    case None =>
      if condition.operator.IsNull? then True else if condition.operator.IsNotNull? then False else Unknown
  }

  lemma {:induction false} TrimmedItemsAre(items: seq<string>, item: string)
    ensures item in TrimmedItems(items) <==> item != "" && exists k :: 0 <= k < |items| && Text.Trim(items[k]) == item
  {
    hide Text.Trim;
    if items != [] {
      TrimmedItemsAre(items[1..], item);
      assert forall k :: 1 <= k < |items| ==> items[k] == items[1..][k - 1];
      assert forall k :: 0 <= k < |items[1..]| ==> items[1..][k] == items[k + 1];
    }
  }

  lemma {:induction false} OperandsAre(items: seq<string>, column: Column, operand: Operand)
    requires OperatorsFor(column.columnType) != {}
    ensures operand in OperandsOf(items, column) <==>
            exists item :: item in items && operand == Meant(KindOf(column.columnType), item)
  {
    hide OperandOf, Meant, KindOf, OperatorsFor;
    if items != [] {
      OperandsAre(items[1..], column, operand);
      OperandIsMeant(items[0], column);
    }
  }

  /** The list test holds exactly of the places of the list's items. */
  lemma ListAnswers(value: string, column: Column, place: real, places: Places)
    requires OperatorsFor(column.columnType) != {}
    ensures (exists o :: o in OperandsOf(ListItems(value), column) && place == places(column.name, o)) <==>
            exists item :: IsItem(value, item) && place == places(column.name, Meant(KindOf(column.columnType), item))
  {
    hide OperatorsFor, Meant, KindOf, OperandsOf, TrimmedItems, SplitList, Text.Trim;
    var operands, items := OperandsOf(ListItems(value), column), ListItems(value);
    if o :| o in operands && place == places(column.name, o) {
      OperandsAre(items, column, o);
      var item :| item in items && o == Meant(KindOf(column.columnType), item);
      TrimmedItemsAre(SplitList(value), item);
      assert IsItem(value, item);
    }
    if item :| IsItem(value, item) && place == places(column.name, Meant(KindOf(column.columnType), item)) {
      TrimmedItemsAre(SplitList(value), item);
      OperandsAre(items, column, Meant(KindOf(column.columnType), item));
    }
  }

  /** CONTAINS, STARTS_WITH and ENDS_WITH test for the user's text itself, with no wildcard in it. */
  lemma SubstringTestsMeanLiteralText(condition: Condition, column: Column, cell: Cell, row: Row, places: Places)
    requires condition.operator.Contains? || condition.operator.StartsWith? || condition.operator.EndsWith?
    requires row(column.name) == Some(cell)
    ensures Answer(TestOf(condition, column), row, places) == Decided(Asks(condition, column, cell, places))
  {
    hide LikePatterns.Like, EscapeLikeWildcards;
    PatternsMeanLiteralText(condition.value, cell.text);
  }

  /** Every test holds of a row exactly when its condition's operator says so, three-valued. */
  lemma TestAnswers(condition: Condition, column: Column, row: Row, places: Places)
    requires OperatorsFor(column.columnType) != {}
    requires FilterPredicate(condition, column).Success?
    ensures Answer(TestOf(condition, column), row, places) == Asked(condition, column, row, places)
  {
    hide OperatorsFor, LikePatterns.Like, ListItems, OperandsOf, OperandOf, Meant, KindOf, ValueLiteral, LikePattern, IsItem, ListText;
    OperandIsMeant(condition.value, column);
    match row(column.name) {
      case None =>
      case Some(cell) =>
        match condition.operator {
          case In => ListAnswers(condition.value, column, cell.place, places);
          case NotIn => ListAnswers(condition.value, column, cell.place, places);
          case Between => BoundsAreMeant(condition, column);
          case Contains => SubstringTestsMeanLiteralText(condition, column, cell, row, places);
          case StartsWith => SubstringTestsMeanLiteralText(condition, column, cell, row, places);
          case EndsWith => SubstringTestsMeanLiteralText(condition, column, cell, row, places);
          case _ =>
        }
    }
  }

  lemma BoundsAreMeant(condition: Condition, column: Column)
    requires OperatorsFor(column.columnType) != {}
    requires condition.operator.Between? && FilterPredicate(condition, column).Success?
    ensures var bounds, kind := SplitList(condition.value), KindOf(column.columnType);
            |bounds| == 2 &&
            TestOf(condition, column) == Within(column.name, Meant(kind, bounds[0]), Meant(kind, bounds[1]))
  {
    hide OperatorsFor, OperandOf, Meant, KindOf, ValueLiteral;
    var bounds := SplitList(condition.value);
    OperandIsMeant(bounds[0], column);
    OperandIsMeant(bounds[1], column);
  }

  ghost function AskedOf(condition: Condition, schema: seq<Column>, row: Row, places: Places): Truth
  {
    match FindColumn(schema, condition.columnName)
    case None => Unknown
    case Some(column) => Asked(condition, column, row, places)
  }

  /** The conditions applied one after another. */
  ghost function AskedInTurn(active: seq<Condition>, schema: seq<Column>, row: Row, places: Places): Truth
    requires active != []
  {
    var n := |active| - 1;
    var last := AskedOf(active[n], schema, row, places);
    if n == 0 then last
    else if active[n].conjunction.And? then AndTruth(AskedInTurn(active[..n], schema, row, places), last)
    else OrTruth(AskedInTurn(active[..n], schema, row, places), last)
  }

  ghost function EvaluateOn(tree: Tree, row: Row, places: Places): Truth
  {
    match tree
    case Leaf(test) => Answer(test, row, places)
    case Both(left, right) => AndTruth(EvaluateOn(left, row, places), EvaluateOn(right, row, places))
    case Either(left, right) => OrTruth(EvaluateOn(left, row, places), EvaluateOn(right, row, places))
  }

  lemma ItemAnswers(condition: Condition, schema: seq<Column>, row: Row, places: Places)
    requires Compiles(condition, schema)
    ensures Answer(ItemOf(condition, schema).test, row, places) == AskedOf(condition, schema, row, places)
  {
    hide Answer, Asked, FilterPredicate, OperatorsFor, ConditionLexemes, TestOf, FindColumn;
    TestAnswers(condition, FindColumn(schema, condition.columnName).value, row, places);
  }

  lemma {:induction false} FoldAnswers(active: seq<Condition>, schema: seq<Column>, row: Row, places: Places)
    requires active != [] && AllCompile(active, schema)
    ensures EvaluateOn(LeftFold(ItemsOf(active, schema)), row, places) == AskedInTurn(active, schema, row, places)
    decreases |active|
  {
    hide Answer, AskedOf, ItemOf, Compiles, AndTruth, OrTruth;
    var n := |active| - 1;
    ItemAnswers(active[n], schema, row, places);
    ItemKeepsConnector(active[n], schema);
    if n > 0 {
      FoldAnswers(active[..n], schema, row, places);
      assert ItemsOf(active, schema)[..n] == ItemsOf(active[..n], schema);
    }
  }

  lemma ItemKeepsConnector(condition: Condition, schema: seq<Column>)
    requires Compiles(condition, schema)
    ensures ItemOf(condition, schema).conjunction == condition.conjunction
  {
  }

  /**
   The emitted text, read back, has on every row the three-valued value of the conditions that take part,
   applied one after another, each as its operator asks.
   */
  lemma ClauseAnswersAsAsked(conditions: seq<Condition>, schema: seq<Column>, row: Row, places: Places)
    requires Compile(conditions, schema).errors == [] && Active(conditions) != []
    ensures ReadWhere(Compile(conditions, schema).whereClause).Some?
    ensures EvaluateOn(ReadWhere(Compile(conditions, schema).whereClause).value, row, places) ==
            AskedInTurn(Active(conditions), schema, row, places)
  {
    hide ReadWhere, Compile, Active, EvaluateOn, AskedInTurn, LeftFold, ItemsOf;
    ClauseReadsAsLeftFold(conditions, schema);
    FoldAnswers(Active(conditions), schema, row, places);
  }
}
