/**
 Every compiled WHERE clause reads back as the strict left-to-right fold of its conditions, and so has
 that fold's value in three-valued logic.
 */
module FilterCorrectness {
  import opened Wrappers
  import opened LikePatterns
  import opened MysqlText
  import opened TableFilter
  import opened FilterMeaning
  import opened FilterPredicates
  import Lists

  // ----- the conditions that reach the clause

  /** A compiled condition: its text, its lexemes, the test it asks for, and its connector. */
  datatype Item = Item(text: string, lexemes: seq<Lexeme>, test: Test, conjunction: Conjunction)

  predicate Compiles(condition: Condition, schema: seq<Column>) { CompileCondition(condition, schema).Success? }

  function ItemOf(condition: Condition, schema: seq<Column>): Item
    requires Compiles(condition, schema)
  {
    var column := FindColumn(schema, condition.columnName).value;
    Item(FilterPredicate(condition, column).value, ConditionLexemes(condition, column), TestOf(condition, column),
         condition.conjunction)
  }

  predicate AllCompile(active: seq<Condition>, schema: seq<Column>)
  {
    forall i :: 0 <= i < |active| ==> Compiles(active[i], schema)
  }

  function ItemsOf(active: seq<Condition>, schema: seq<Column>): seq<Item>
    requires AllCompile(active, schema)
  {
    seq(|active|, i requires 0 <= i < |active| => ItemOf(active[i], schema))
  }

  function PartsOf(items: seq<Item>): seq<Part>
  {
    seq(|items|, i requires 0 <= i < |items| => Part(items[i].text, items[i].conjunction))
  }

  lemma {:induction false} PartsAreCompiled(active: seq<Condition>, schema: seq<Column>)
    requires Errors(active, schema) == []
    ensures AllCompile(active, schema) && Parts(active, schema) == PartsOf(ItemsOf(active, schema))
  {
    hide FilterPredicate, FindColumn, OperatorsFor, ConditionLexemes, TestOf;
    if active != [] {
      PartsAreCompiled(active[1..], schema);
    }
  }

  /** The item's text reads as its lexemes, and these parse to its test. */
  ghost predicate IsSound(item: Item)
  {
    && (forall rest: string :: Delimited(rest) ==> Reads(item.text, rest, item.lexemes))
    && (forall rest: seq<Lexeme> :: Follows(rest) ==>
          ParseFactor(item.lexemes + rest) == Some(Parsed(Leaf(item.test), rest)))
  }

  ghost predicate AllSound(items: seq<Item>) { forall i :: 0 <= i < |items| ==> IsSound(items[i]) }

  lemma ItemIsSound(condition: Condition, schema: seq<Column>)
    requires Compiles(condition, schema)
    ensures IsSound(ItemOf(condition, schema))
  {
    hide FilterPredicate, OperatorsFor, FindColumn, ParseTest, TailLexemes, TestOf, Reads, Delimited, Follows;
    var item, column := ItemOf(condition, schema), FindColumn(schema, condition.columnName).value;
    forall rest: string | Delimited(rest) ensures Reads(item.text, rest, item.lexemes) {
      ReadsCondition(condition, column, rest);
    }
    forall rest: seq<Lexeme> | Follows(rest)
      ensures ParseFactor(item.lexemes + rest) == Some(Parsed(Leaf(item.test), rest))
    {
      TestParses(condition, column, rest);
      assert (item.lexemes + rest)[0].Ident?;
    }
  }

  // ----- reading the text

  function ConnectorLexeme(conjunction: Conjunction): Lexeme { Bare(ConjunctionSql(conjunction)) }

  function JoinLexemes(clause: seq<Lexeme>, conjunction: Conjunction, last: seq<Lexeme>, wrap: bool): seq<Lexeme>
  {
    (if wrap then [Open] + clause + [Close] else clause) + ([ConnectorLexeme(conjunction)] + last)
  }

  function ClauseLexemes(items: seq<Item>, mixed: bool): seq<Lexeme>
    requires items != []
  {
    var n := |items| - 1;
    if n == 0 then items[0].lexemes
    else JoinLexemes(ClauseLexemes(items[..n], mixed), items[n].conjunction, items[n].lexemes, mixed && n > 1)
  }

  lemma ReadsConnector(conjunction: Conjunction, text: string, rest: string, lexemes: seq<Lexeme>)
    requires Reads(text, rest, lexemes)
    ensures Reads(ConjunctionSql(conjunction) + " " + text, rest, [ConnectorLexeme(conjunction)] + lexemes)
  {
    hide Lexemes;
    SpaceDelimits(text + rest);
    LexBare(ConjunctionSql(conjunction), " " + (text + rest));
    ReadsSpaced(ConjunctionSql(conjunction), text, rest, [ConnectorLexeme(conjunction)], lexemes);
  }

  lemma ReadsJoin(clause: string, part: Part, wrap: bool, rest: string, inner: seq<Lexeme>, last: seq<Lexeme>)
    requires Reads(part.text, rest, last)
    requires forall r: string :: Delimited(r) ==> Reads(clause, r, inner)
    ensures Reads(JoinPart(clause, part, wrap), rest, JoinLexemes(inner, part.conjunction, last, wrap))
  {
    hide Reads, ConjunctionSql, ConnectorLexeme, Delimited;
    ReadsConnector(part.conjunction, part.text, rest, last);
    var tail := ConjunctionSql(part.conjunction) + " " + part.text;
    var lexemes := [ConnectorLexeme(part.conjunction)] + last;
    SpaceDelimits(tail + rest);
    if wrap {
      SpaceDelimits(" " + (tail + rest));
      ReadsParenthesised(clause, " " + (tail + rest), inner);
      ReadsSpaced("(" + clause + ")", tail, rest, [Open] + inner + [Close], lexemes);
      assert "(" + clause + ")" + " " + tail == JoinPart(clause, part, wrap);
    } else {
      ReadsSpaced(clause, tail, rest, inner, lexemes);
      assert clause + " " + tail == JoinPart(clause, part, wrap);
    }
  }

  /** The joined text reads as the joined lexemes. */
  lemma {:induction false} ReadsClause(items: seq<Item>, mixed: bool, rest: string)
    requires items != [] && AllSound(items) && Delimited(rest)
    ensures Reads(ClauseText(PartsOf(items), mixed), rest, ClauseLexemes(items, mixed))
    decreases |items|
  {
    hide Reads, Delimited, JoinPart, JoinLexemes;
    var n := |items| - 1;
    assert IsSound(items[n]);
    if n > 0 {
      var clause, inner := ClauseText(PartsOf(items[..n]), mixed), ClauseLexemes(items[..n], mixed);
      assert PartsOf(items)[..n] == PartsOf(items[..n]);
      forall r: string | Delimited(r) ensures Reads(clause, r, inner) {
        ReadsClause(items[..n], mixed, r);
      }
      ReadsJoin(clause, PartsOf(items)[n], mixed && n > 1, rest, inner, items[n].lexemes);
    }
  }

  // ----- parsing the lexemes

  function Join(conjunction: Conjunction, left: Tree, right: Tree): Tree
  {
    if conjunction.And? then Both(left, right) else Either(left, right)
  }

  /** The tests joined strictly from left to right. */
  function LeftFold(items: seq<Item>): Tree
    requires items != []
  {
    var n := |items| - 1;
    if n == 0 then Leaf(items[0].test) else Join(items[n].conjunction, LeftFold(items[..n]), Leaf(items[n].test))
  }

  predicate Ends(rest: seq<Lexeme>) { rest == [] || rest[0] == Close }

  lemma FactorParses(items: seq<Item>, i: nat, rest: seq<Lexeme>)
    requires AllSound(items) && i < |items| && Follows(rest)
    ensures ParseFactor(items[i].lexemes + rest) == Some(Parsed(Leaf(items[i].test), rest))
  {
    hide Reads, ParseFactor;
    assert IsSound(items[i]);
  }

  lemma WrappedParses(inner: seq<Lexeme>, tree: Tree, tail: seq<Lexeme>)
    requires ParseExpression(inner + ([Close] + tail)) == Some(Parsed(tree, [Close] + tail))
    ensures ParseFactor([Open] + inner + [Close] + tail) == Some(Parsed(tree, tail))
  {
    hide ParseExpression;
    var ls := [Open] + inner + [Close] + tail;
    assert ls[1..] == inner + ([Close] + tail);
    assert ([Close] + tail)[1..] == tail;
  }

  lemma AndParses(left: Tree, last: seq<Lexeme>, leaf: Tree, rest: seq<Lexeme>)
    requires ParseFactor(last + rest) == Some(Parsed(leaf, rest))
    ensures ParseAnds(left, [ConnectorLexeme(And)] + last + rest) == ParseAnds(Both(left, leaf), rest)
  {
    hide ParseFactor;
    assert ([ConnectorLexeme(And)] + last + rest)[1..] == last + rest;
  }

  lemma NoAndFollows(tree: Tree, rest: seq<Lexeme>)
    requires !At(rest, 0, "AND")
    ensures ParseAnds(tree, rest) == Some(Parsed(tree, rest))
  {
  }

  lemma OrParses(left: Tree, last: seq<Lexeme>, leaf: Tree, rest: seq<Lexeme>)
    requires ParseFactor(last + rest) == Some(Parsed(leaf, rest)) && !At(rest, 0, "AND")
    ensures ParseOrs(left, [ConnectorLexeme(Or)] + last + rest) == ParseOrs(Either(left, leaf), rest)
  {
    hide ParseFactor, ParseAnds;
    NoAndFollows(leaf, rest);
    assert ([ConnectorLexeme(Or)] + last + rest)[1..] == last + rest;
  }

  /** One connector between a factor and a predicate. */
  lemma JoinParses(
    head: seq<Lexeme>, left: Tree, conjunction: Conjunction, last: seq<Lexeme>, leaf: Tree, rest: seq<Lexeme>)
    requires var tail := [ConnectorLexeme(conjunction)] + last + rest;
             ParseFactor(head + tail) == Some(Parsed(left, tail))
    requires ParseFactor(last + rest) == Some(Parsed(leaf, rest)) && Ends(rest)
    ensures ParseExpression(head + ([ConnectorLexeme(conjunction)] + last + rest)) ==
            Some(Parsed(Join(conjunction, left, leaf), rest))
  {
    hide ParseFactor, ParseAnds;
    var tail := [ConnectorLexeme(conjunction)] + last + rest;
    if conjunction.And? {
      AndParses(left, last, leaf, rest);
      NoAndFollows(Both(left, leaf), rest);
    } else {
      NoAndFollows(left, tail);
      OrParses(left, last, leaf, rest);
    }
  }

  lemma {:induction false} MixedClauseParses(items: seq<Item>, rest: seq<Lexeme>)
    requires items != [] && AllSound(items) && Ends(rest)
    ensures ParseExpression(ClauseLexemes(items, true) + rest) == Some(Parsed(LeftFold(items), rest))
    decreases |items|
  {
    hide ParseFactor, ParseExpression, IsSound, ConnectorLexeme, Join;
    var n := |items| - 1;
    FactorParses(items, n, rest);
    if n == 0 {
      LoneFactorParses(items[0].lexemes, Leaf(items[0].test), rest);
    } else {
      var conjunction, last := items[n].conjunction, items[n].lexemes;
      var inner, left := ClauseLexemes(items[..n], true), LeftFold(items[..n]);
      var tail := [ConnectorLexeme(conjunction)] + last + rest;
      var head := if n > 1 then [Open] + inner + [Close] else inner;
      ConnectorFollows(conjunction, last + rest);
      assert tail == [ConnectorLexeme(conjunction)] + (last + rest);
      if n > 1 {
        MixedClauseParses(items[..n], [Close] + tail);
        WrappedParses(inner, left, tail);
      } else {
        FactorParses(items, 0, tail);
      }
      JoinParses(head, left, conjunction, last, Leaf(items[n].test), rest);
      assert ClauseLexemes(items, true) + rest == head + tail;
    }
  }

  lemma ConnectorFollows(conjunction: Conjunction, rest: seq<Lexeme>)
    ensures Follows([ConnectorLexeme(conjunction)] + rest)
  {
  }

  lemma LoneFactorParses(ls: seq<Lexeme>, leaf: Tree, rest: seq<Lexeme>)
    requires ParseFactor(ls + rest) == Some(Parsed(leaf, rest)) && Ends(rest)
    ensures ParseExpression(ls + rest) == Some(Parsed(leaf, rest))
  {
    hide ParseFactor, ParseAnds;
    NoAndFollows(leaf, rest);
  }

  predicate Uniform(items: seq<Item>, conjunction: Conjunction)
  {
    forall i :: 1 <= i < |items| ==> items[i].conjunction == conjunction
  }

  lemma {:induction false} AndClauseParses(items: seq<Item>, rest: seq<Lexeme>)
    requires items != [] && AllSound(items) && Uniform(items, And) && Follows(rest)
    ensures ParseTerm(ClauseLexemes(items, false) + rest) == ParseAnds(LeftFold(items), rest)
    decreases |items|
  {
    hide ParseFactor, ParseAnds, IsSound, ConnectorLexeme;
    var n := |items| - 1;
    FactorParses(items, n, rest);
    if n > 0 {
      var last := items[n].lexemes;
      var tail := [ConnectorLexeme(And)] + last + rest;
      ConnectorFollows(And, last + rest);
      assert tail == [ConnectorLexeme(And)] + (last + rest);
      AndClauseParses(items[..n], tail);
      AndParses(LeftFold(items[..n]), last, Leaf(items[n].test), rest);
      assert ClauseLexemes(items, false) + rest == ClauseLexemes(items[..n], false) + tail;
    }
  }

  lemma {:induction false} OrClauseParses(items: seq<Item>, rest: seq<Lexeme>)
    requires items != [] && AllSound(items) && Uniform(items, Or) && (Ends(rest) || At(rest, 0, "OR"))
    ensures ParseExpression(ClauseLexemes(items, false) + rest) == ParseOrs(LeftFold(items), rest)
    decreases |items|
  {
    hide ParseFactor, ParseAnds, ParseOrs, IsSound;
    var n := |items| - 1;
    FactorParses(items, n, rest);
    if n == 0 {
      NoAndFollows(Leaf(items[0].test), rest);
    } else {
      var last := items[n].lexemes;
      var tail := [ConnectorLexeme(Or)] + last + rest;
      OrClauseParses(items[..n], tail);
      OrParses(LeftFold(items[..n]), last, Leaf(items[n].test), rest);
      assert ClauseLexemes(items, false) + rest == ClauseLexemes(items[..n], false) + tail;
    }
  }

  lemma ClauseParses(items: seq<Item>)
    requires items != [] && AllSound(items)
    ensures ParseExpression(ClauseLexemes(items, IsMixed(PartsOf(items)))) == Some(Parsed(LeftFold(items), []))
  {
    hide ParseExpression, ClauseLexemes, LeftFold, ParseAnds, ParseOrs, IsSound;
    var parts := PartsOf(items);
    assert ClauseLexemes(items, IsMixed(parts)) + [] == ClauseLexemes(items, IsMixed(parts));
    assert forall i :: 0 <= i < |items| ==> parts[i].conjunction == items[i].conjunction;
    if IsMixed(parts) {
      MixedClauseParses(items, []);
    } else if forall i :: 1 <= i < |parts| ==> parts[i].conjunction.And? {
      AndClauseParses(items, []);
      TermAlone(ClauseLexemes(items, false), LeftFold(items));
    } else {
      OrClauseParses(items, []);
      NoOrFollows(LeftFold(items));
    }
  }

  lemma NoOrFollows(tree: Tree)
    ensures ParseOrs(tree, []) == Some(Parsed(tree, []))
  {
  }

  lemma TermAlone(ls: seq<Lexeme>, tree: Tree)
    requires ParseTerm(ls) == ParseAnds(tree, [])
    ensures ParseExpression(ls) == Some(Parsed(tree, []))
  {
    NoAndFollows(tree, []);
    NoOrFollows(tree);
  }

  lemma WhereReads(text: string, ls: seq<Lexeme>)
    requires Reads(text, "", ls)
    ensures Lexemes(" WHERE " + text) == Some([Bare("WHERE")] + ls)
  {
    assert Lexemes("") == Some([]);
    hide Lexemes;
    assert text + "" == text && ls + [] == ls;
    assert " WHERE " + text == " " + ("WHERE" + (" " + text));
    LexSpace("WHERE" + (" " + text));
    LexBare("WHERE", " " + text);
    LexSpace(text);
  }

  /** The joined text of sound items reads back as the strict left-to-right fold of their tests. */
  lemma ItemsReadAsLeftFold(items: seq<Item>)
    requires items != [] && AllSound(items)
    ensures ReadWhere(" WHERE " + ClauseText(PartsOf(items), IsMixed(PartsOf(items)))) == Some(LeftFold(items))
  {
    hide Lexemes, ParseExpression, ClauseLexemes, LeftFold, ClauseText, IsMixed, AllSound;
    var mixed := IsMixed(PartsOf(items));
    ReadsClause(items, mixed, "");
    ClauseParses(items);
    WhereReads(ClauseText(PartsOf(items), mixed), ClauseLexemes(items, mixed));
  }

  /** The conditions that take part, compiled. */
  function Wanted(conditions: seq<Condition>, schema: seq<Column>): seq<Item>
    requires AllCompile(Active(conditions), schema)
  {
    ItemsOf(Active(conditions), schema)
  }

  /** The clause of the conditions that take part reads back as their strict left-to-right fold. */
  lemma ClauseReadsAsLeftFold(conditions: seq<Condition>, schema: seq<Column>)
    requires Compile(conditions, schema).errors == [] && Active(conditions) != []
    ensures AllCompile(Active(conditions), schema)
    ensures ReadWhere(Compile(conditions, schema).whereClause) == Some(LeftFold(Wanted(conditions, schema)))
  {
    hide ReadWhere, LeftFold, ClauseText, Active, Parts, Errors, IsMixed, Compiles, ItemOf, IsSound;
    var active := Active(conditions);
    assert Lists.Distinct(Errors(active, schema), {}) == [] ==> Errors(active, schema) == [];
    PartsAreCompiled(active, schema);
    forall i | 0 <= i < |active| ensures IsSound(ItemsOf(active, schema)[i]) {
      ItemIsSound(active[i], schema);
    }
    ItemsReadAsLeftFold(Wanted(conditions, schema));
  }

  // ----- three-valued logic

  datatype Truth = True | False | Unknown

  function AndTruth(left: Truth, right: Truth): Truth
  {
    if left.False? || right.False? then False else if left.True? && right.True? then True else Unknown
  }

  function OrTruth(left: Truth, right: Truth): Truth
  {
    if left.True? || right.True? then True else if left.False? && right.False? then False else Unknown
  }

  function Evaluate(tree: Tree, holds: Test -> Truth): Truth
  {
    match tree
    case Leaf(test) => holds(test)
    case Both(left, right) => AndTruth(Evaluate(left, holds), Evaluate(right, holds))
    case Either(left, right) => OrTruth(Evaluate(left, holds), Evaluate(right, holds))
  }

  /** Applying the remaining conditions one after another to the value so far. */
  function FoldTruth(value: Truth, rest: seq<Item>, holds: Test -> Truth): Truth
    decreases |rest|
  {
    if rest == [] then value
    else
      var next := holds(rest[0].test);
      FoldTruth(if rest[0].conjunction.And? then AndTruth(value, next) else OrTruth(value, next), rest[1..], holds)
  }

  lemma {:induction false} FoldTruthOfOneMore(value: Truth, rest: seq<Item>, last: Item, holds: Test -> Truth)
    ensures var before := FoldTruth(value, rest, holds);
            FoldTruth(value, rest + [last], holds) ==
            if last.conjunction.And? then AndTruth(before, holds(last.test)) else OrTruth(before, holds(last.test))
    decreases |rest|
  {
    hide AndTruth, OrTruth;
    var all := rest + [last];
    if rest == [] {
      assert all == [last] && all[1..] == [];
    } else {
      assert all[1..] == rest[1..] + [last];
      var next := holds(rest[0].test);
      FoldTruthOfOneMore(
        if rest[0].conjunction.And? then AndTruth(value, next) else OrTruth(value, next), rest[1..], last, holds);
    }
  }

  lemma {:induction false} LeftFoldEvaluates(items: seq<Item>, holds: Test -> Truth)
    requires items != []
    ensures Evaluate(LeftFold(items), holds) == FoldTruth(holds(items[0].test), items[1..], holds)
    decreases |items|
  {
    hide AndTruth, OrTruth;
    var n := |items| - 1;
    if n > 0 {
      LeftFoldEvaluates(items[..n], holds);
      FoldTruthOfOneMore(holds(items[0].test), items[..n][1..], items[n], holds);
      assert items[1..] == items[..n][1..] + [items[n]];
    }
  }

  /**
   Connector meaning is preserved: for every valuation of the tests, the emitted text evaluates to the
   value got by applying the conditions that take part one after another.
   */
  lemma ClauseMeansLeftToRight(conditions: seq<Condition>, schema: seq<Column>, holds: Test -> Truth)
    requires Compile(conditions, schema).errors == [] && Active(conditions) != []
    ensures AllCompile(Active(conditions), schema) && ReadWhere(Compile(conditions, schema).whereClause).Some?
    ensures var items := Wanted(conditions, schema);
            Evaluate(ReadWhere(Compile(conditions, schema).whereClause).value, holds) ==
            FoldTruth(holds(items[0].test), items[1..], holds)
  {
    hide Evaluate, FoldTruth, Active, ReadWhere, Compile, ItemOf, LeftFold, AllCompile;
    ClauseReadsAsLeftFold(conditions, schema);
    LeftFoldEvaluates(Wanted(conditions, schema), holds);
  }
}
